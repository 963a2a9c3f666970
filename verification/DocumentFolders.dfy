/** The folder list of a workspace: folders exist only as prefixes of document paths. */
module DocumentFolders {
  import opened Paths

  datatype Folder = Folder(path: string, name: string, depth: nat)

  // ---- segments ----

  function FolderSegments(path: string): seq<string> {
    var segments := Segments(path);
    if |segments| == 0 then [] else segments[..|segments| - 1]
  }

  /** A folder as the segments that lead to it. */
  ghost predicate Trail(segments: seq<string>) {
    SlashFree(segments) && forall i | 0 <= i < |segments| :: segments[i] != ""
  }

  lemma {:induction false} NonEmptyIsTrail(parts: seq<string>)
    requires SlashFree(parts)
    ensures Trail(NonEmpty(parts))
  {
    if |parts| > 0 { NonEmptyIsTrail(parts[1..]); }
  }

  lemma FolderSegmentsIsTrail(path: string)
    ensures Trail(FolderSegments(path))
  {
    SplitIsSlashFree(path);
    NonEmptyIsTrail(Split(path));
  }

  function FolderOf(trail: seq<string>): Folder {
    Folder(Join(trail), if |trail| == 0 then "root" else trail[|trail| - 1], |trail|)
  }

  /** Different trails have different paths. */
  lemma JoinIsInjective(a: seq<string>, b: seq<string>)
    requires Trail(a) && Trail(b) && Join(a) == Join(b)
    ensures a == b
  {
    if |a| > 0 { SplitJoin(a); JoinNonEmpty(a); }
    if |b| > 0 { SplitJoin(b); JoinNonEmpty(b); }
  }

  lemma JoinNonEmpty(trail: seq<string>)
    requires Trail(trail) && |trail| > 0
    ensures Join(trail) != ""
  {
    assert trail[0] != "";
  }

  // ---- collecting ----

  /** The folder holds one of the documents, directly or further below. */
  ghost predicate Holds(trail: seq<string>, paths: seq<string>) {
    exists i :: 0 <= i < |paths| && trail <= FolderSegments(paths[i])
  }

  /** Which folders there are, told from the parts of the paths: those that lie properly on the way to
      a document, and how each reads in the list. */
  lemma HoldsExactlyWhen(trail: seq<string>, paths: seq<string>)
    requires trail != []
    ensures Holds(trail, paths) <==> exists i :: 0 <= i < |paths| && trail < Segments(paths[i])
    ensures FolderOf(trail) == Folder(Join(trail), trail[|trail| - 1], |trail|) && FolderOf([]) == Folder("", "root", 0)
  {
    hide Segments;
    if i :| 0 <= i < |paths| && trail < Segments(paths[i]) {
      assert trail <= FolderSegments(paths[i]);
    }
    if i :| 0 <= i < |paths| && trail <= FolderSegments(paths[i]) {
      assert trail < Segments(paths[i]);
    }
  }

  ghost predicate Lists(folders: seq<Folder>, trails: seq<seq<string>>) {
    && |folders| == |trails|
    && (forall i | 0 <= i < |trails| :: Trail(trails[i]) && folders[i] == FolderOf(trails[i]))
    && (forall i, j | 0 <= i < j < |trails| :: trails[i] != trails[j])
  }

  ghost predicate Seen(seen: set<string>, trails: seq<seq<string>>) {
    (forall t | t in trails :: Join(t) in seen) && (forall p | p in seen :: exists t :: t in trails && Join(t) == p)
  }

  /** Lists a folder unless its path was seen before. */
  method AddFolder(folder: Folder, folders: seq<Folder>, seen: set<string>, ghost trails: seq<seq<string>>, ghost trail: seq<string>)
    returns (folders': seq<Folder>, seen': set<string>, ghost trails': seq<seq<string>>)
    requires Lists(folders, trails) && Seen(seen, trails) && Trail(trail) && folder == FolderOf(trail)
    ensures Lists(folders', trails') && Seen(seen', trails') && trails <= trails'
    ensures forall t :: t in trails' <==> t in trails || t == trail
  {
    folders', seen', trails' := folders, seen, trails;
    if folder.path !in seen {
      seen' := seen + {folder.path};
      folders' := folders + [folder];
      trails' := trails + [trail];
    } else {
      AlreadyListed(trails, seen, trail);
    }
  }

  /** One document's ancestors, from the outermost inwards; `trails` names what is listed so far. */
  method AddAncestors(path: string, folders: seq<Folder>, seen: set<string>, ghost trails: seq<seq<string>>)
    returns (folders': seq<Folder>, seen': set<string>, ghost trails': seq<seq<string>>)
    requires Lists(folders, trails) && Seen(seen, trails) && [] in trails
    ensures Lists(folders', trails') && Seen(seen', trails') && trails <= trails'
    ensures forall t :: t in trails' <==> t in trails || t <= FolderSegments(path)
  {
    var segments := FolderSegments(path);
    FolderSegmentsIsTrail(path);
    folders', seen', trails' := folders, seen, trails;
    UpToAll(segments);
    hide Lists, Seen, Join, Trail, UpTo, FolderOf, FolderSegments;
    var prefix := "";
    assert Join(segments[..0]) == "" by { EmptyJoin(segments); }
    for index := 0 to |segments|
      invariant Lists(folders', trails') && Seen(seen', trails') && trails <= trails'
      invariant prefix == Join(segments[..index])
      invariant forall t :: t in trails' <==> t in trails || UpTo(t, segments, index)
    {
      var segment := segments[index];
      ghost var trail := segments[..index + 1];
      NextPrefix(segments, index);
      TrailFolder(trail, segment);
      prefix := if prefix != "" then prefix + "/" + segment else segment;
      folders', seen', trails' := AddFolder(Folder(prefix, segment, index + 1), folders', seen', trails', trail);
      UpToGrows(segments, index);
    }
    UpToAll(segments);
  }

  /** The prefixes of at most n segments. */
  ghost predicate UpTo(t: seq<string>, segments: seq<string>, n: nat) {
    t <= segments && |t| <= n
  }

  lemma UpToGrows(segments: seq<string>, n: nat)
    requires n < |segments|
    ensures forall t :: UpTo(t, segments, n + 1) <==> UpTo(t, segments, n) || t == segments[..n + 1]
  {
    forall t
      ensures UpTo(t, segments, n + 1) <==> UpTo(t, segments, n) || t == segments[..n + 1]
    {
      if t <= segments { assert t == segments[..|t|]; }
    }
  }

  lemma UpToAll(segments: seq<string>)
    ensures forall t :: UpTo(t, segments, |segments|) <==> t <= segments
    ensures forall t :: UpTo(t, segments, 0) <==> t == []
  {
  }

  lemma TrailFolder(trail: seq<string>, segment: string)
    requires |trail| > 0 && trail[|trail| - 1] == segment
    ensures FolderOf(trail) == Folder(Join(trail), segment, |trail|)
  {
  }

  lemma EmptyJoin(segments: seq<string>)
    ensures Join(segments[..0]) == ""
  {
  }

  lemma NextPrefix(segments: seq<string>, index: nat)
    requires Trail(segments) && index < |segments|
    ensures Trail(segments[..index + 1])
    ensures Join(segments[..index]) == "" <==> index == 0
    ensures Join(segments[..index + 1]) ==
            if index > 0 then Join(segments[..index]) + "/" + segments[index] else segments[index]
  {
    assert segments[..index + 1] == segments[..index] + [segments[index]];
    if index > 0 {
      JoinSnoc(segments[..index], segments[index]);
      JoinNonEmpty(segments[..index]);
    }
  }

  lemma AlreadyListed(trails: seq<seq<string>>, seen: set<string>, trail: seq<string>)
    requires Seen(seen, trails) && Join(trail) in seen && Trail(trail)
    requires forall i | 0 <= i < |trails| :: Trail(trails[i])
    ensures trail in trails
  {
    var t :| t in trails && Join(t) == Join(trail);
    TrailListed(trails, t);
    JoinIsInjective(t, trail);
  }

  lemma TrailListed(trails: seq<seq<string>>, t: seq<string>)
    requires t in trails && forall i | 0 <= i < |trails| :: Trail(trails[i])
    ensures Trail(t)
  {
  }

  /** The folders are those of exactly these trails, each once: the root and every ancestor
      folder of every document. */
  ghost predicate Ancestors(folders: seq<Folder>, trails: seq<seq<string>>, paths: seq<string>) {
    Lists(folders, trails) && forall t :: t in trails <==> t == [] || Holds(t, paths)
  }

  /** The list before it is sorted. */
  method CollectFolders(paths: seq<string>) returns (folders: seq<Folder>)
    ensures exists trails :: Ancestors(folders, trails, paths)
  {
    folders := [Folder("", "root", 0)];
    var seen := {""};
    ghost var trails: seq<seq<string>> := [[]];
    assert trails[0] == [];
    for i := 0 to |paths|
      invariant Lists(folders, trails) && Seen(seen, trails) && [] in trails
      invariant forall t :: t in trails <==> t == [] || Holds(t, paths[..i])
    {
      forall t { HoldsGrows(t, paths, i); }
      folders, seen, trails := AddAncestors(paths[i], folders, seen, trails);
    }
    assert paths[..|paths|] == paths;
    assert Ancestors(folders, trails, paths);
  }

  lemma HoldsGrows(t: seq<string>, paths: seq<string>, i: nat)
    requires i < |paths|
    ensures Holds(t, paths[..i + 1]) <==> Holds(t, paths[..i]) || t <= FolderSegments(paths[i])
  {
    if Holds(t, paths[..i]) {
      var j :| 0 <= j < i && t <= FolderSegments(paths[..i][j]);
      assert paths[..i + 1][j] == paths[..i][j];
    }
    if t <= FolderSegments(paths[i]) {
      assert paths[..i + 1][i] == paths[i];
    }
    if Holds(t, paths[..i + 1]) && !(t <= FolderSegments(paths[i])) {
      var j :| 0 <= j < i + 1 && t <= FolderSegments(paths[..i + 1][j]);
      assert paths[..i][j] == paths[..i + 1][j];
    }
  }

  // ---- the sorting order ----

  /** The first of two segments comes strictly first in the locale's comparison. */
  type Less = (string, string) -> bool

  /** What a locale's comparison is: a weak order in which nothing comes before the empty text. Two
      different segments may tie, as canonically equivalent ones must. */
  ghost predicate WeakOrder(less: Less) {
    && (forall a: string :: !less(a, a) && !less(a, ""))
    && (forall a: string, b: string, c: string | less(a, b) && less(b, c) :: less(a, c))
    && (forall a: string, b: string, c: string | less(a, c) :: less(a, b) || less(b, c))
  }

  predicate Tie(less: Less, a: string, b: string) {
    a != b && !less(a, b) && !less(b, a)
  }

  /** The comparator: first differing segment decides, then the number of segments. */
  predicate Before(less: Less, a: seq<string>, b: seq<string>) {
    if |b| == 0 then false
    else if |a| == 0 then true
    else if a[0] != b[0] then less(a[0], b[0])
    else Before(less, a[1..], b[1..])
  }

  predicate FolderBefore(less: Less, left: Folder, right: Folder) {
    Before(less, Split(left.path), Split(right.path))
  }

  lemma {:induction false} PrefixComesFirst(less: Less, a: seq<string>, b: seq<string>)
    requires a < b
    ensures Before(less, a, b)
  {
    if |a| > 0 {
      assert a[1..] < b[1..];
      PrefixComesFirst(less, a[1..], b[1..]);
    }
  }

  /** No later folder comes strictly before an earlier one. */
  ghost predicate InOrder(less: Less, sorted: seq<Folder>) {
    forall i, j | 0 <= i < j < |sorted| :: !FolderBefore(less, sorted[j], sorted[i])
  }

  /** A list of folders that the sort may have produced from another. */
  ghost predicate SortedFrom(less: Less, sorted: seq<Folder>, folders: seq<Folder>) {
    multiset(sorted) == multiset(folders) && InOrder(less, sorted)
  }

  /** The folder `below` lies inside the folder `above`. */
  ghost predicate Inside(above: seq<string>, below: seq<string>) {
    above < below
  }

  /** Two different folders of one folder. */
  ghost predicate Siblings(a: seq<string>, b: seq<string>) {
    |a| == |b| > 0 && a[..|a| - 1] == b[..|b| - 1] && a != b
  }

  ghost predicate Listed(trail: seq<string>, paths: seq<string>) {
    trail == [] || Holds(trail, paths)
  }

  /** No folder with something inside it ties with a sibling, nor the root with a top folder. */
  ghost predicate Separated(less: Less, paths: seq<string>) {
    && (forall a, b, c :: !TiedAround(less, paths, a, b, c))
    && (forall c | Listed(c, paths) && c != [] :: less("", c[0]))
  }

  ghost predicate TiedAround(less: Less, paths: seq<string>, a: seq<string>, b: seq<string>, c: seq<string>) {
    Listed(a, paths) && Listed(b, paths) && Listed(c, paths) && Siblings(a, b) && Inside(a, c)
    && Tie(less, a[|a| - 1], b[|b| - 1])
  }

  lemma ListedPrefix(trail: seq<string>, n: nat, paths: seq<string>)
    requires Listed(trail, paths) && n <= |trail|
    ensures Listed(trail[..n], paths)
  {
    if trail != [] {
      var i :| 0 <= i < |paths| && trail <= FolderSegments(paths[i]);
      assert trail[..n] <= FolderSegments(paths[i]);
    }
  }

  // ---- keys ----

  /** The key the comparator reads off a folder's path. */
  function SortKey(trail: seq<string>): seq<string> {
    if |trail| == 0 then [""] else trail
  }

  lemma SortKeyIsSplit(trail: seq<string>)
    requires Trail(trail)
    ensures Split(FolderOf(trail).path) == SortKey(trail)
  {
    if |trail| > 0 { SplitJoin(trail); }
  }

  function TrailOf(path: string): seq<string> {
    if path == "" then [] else Split(path)
  }

  lemma TrailOfFolder(trail: seq<string>)
    requires Trail(trail)
    ensures TrailOf(FolderOf(trail).path) == trail
  {
    if |trail| > 0 {
      SplitJoin(trail);
      JoinNonEmpty(trail);
    }
  }

  ghost function TrailsOf(sorted: seq<Folder>): (trails: seq<seq<string>>)
    ensures |trails| == |sorted| && forall k | 0 <= k < |sorted| :: trails[k] == TrailOf(sorted[k].path)
  {
    seq(|sorted|, k requires 0 <= k < |sorted| => TrailOf(sorted[k].path))
  }

  // ---- each folder once ----

  lemma SortedTrail(folders: seq<Folder>, trails: seq<seq<string>>, f: Folder)
    requires Lists(folders, trails) && f in folders
    ensures exists t :: t in trails && Trail(t) && f == FolderOf(t)
  {
    var i :| 0 <= i < |folders| && folders[i] == f;
    assert trails[i] in trails;
  }

  lemma TwiceInSorted(sorted: seq<Folder>, i: nat, j: nat)
    requires i < j < |sorted| && sorted[i] == sorted[j]
    ensures multiset(sorted)[sorted[i]] >= 2
  {
    assert sorted == sorted[..i] + [sorted[i]] + sorted[i + 1..j] + [sorted[j]] + sorted[j + 1..];
  }

  lemma {:induction false} OnceInList(folders: seq<Folder>, trails: seq<seq<string>>, f: Folder)
    requires Lists(folders, trails)
    ensures multiset(folders)[f] <= 1
    decreases |folders|
  {
    if |folders| > 0 {
      var n := |folders| - 1;
      assert folders == folders[..n] + [folders[n]];
      assert Lists(folders[..n], trails[..n]);
      OnceInList(folders[..n], trails[..n], f);
      if f == folders[n] && f in folders[..n] {
        var i :| 0 <= i < n && folders[..n][i] == f;
        JoinIsInjective(trails[i], trails[n]);
        assert false;
      }
    }
  }

  /** Every listed folder is in any rearrangement, at one place only. */
  lemma FoldersAreListedOnce(sorted: seq<Folder>, folders: seq<Folder>, trails: seq<seq<string>>, t: seq<string>)
    requires Lists(folders, trails) && multiset(sorted) == multiset(folders) && t in trails
    ensures multiset(sorted)[FolderOf(t)] == 1
  {
    var i :| 0 <= i < |trails| && trails[i] == t;
    assert folders[i] in multiset(folders);
    OnceInList(folders, trails, FolderOf(t));
  }

  lemma SortedTrailAt(sorted: seq<Folder>, folders: seq<Folder>, given: seq<seq<string>>, k: nat)
    requires Lists(folders, given) && multiset(sorted) == multiset(folders) && k < |sorted|
    ensures var t := TrailOf(sorted[k].path);
            Trail(t) && sorted[k] == FolderOf(t) && t in given && Split(sorted[k].path) == SortKey(t)
  {
    assert sorted[k] in multiset(sorted);
    SortedTrail(folders, given, sorted[k]);
    var t :| t in given && Trail(t) && sorted[k] == FolderOf(t);
    TrailOfFolder(t);
    SortKeyIsSplit(t);
  }

  lemma SortedTrailsDiffer(sorted: seq<Folder>, folders: seq<Folder>, given: seq<seq<string>>, i: nat, j: nat)
    requires Lists(folders, given) && multiset(sorted) == multiset(folders) && i < j < |sorted|
    ensures TrailOf(sorted[i].path) != TrailOf(sorted[j].path)
  {
    OnceInList(folders, given, sorted[i]);
    SortedTrailAt(sorted, folders, given, i);
    SortedTrailAt(sorted, folders, given, j);
    if sorted[i] == sorted[j] { TwiceInSorted(sorted, i, j); }
  }

  lemma GivenIsSorted(sorted: seq<Folder>, folders: seq<Folder>, given: seq<seq<string>>, t: seq<string>) returns (k: nat)
    requires Lists(folders, given) && multiset(sorted) == multiset(folders) && t in given
    ensures k < |sorted| && TrailOf(sorted[k].path) == t && sorted[k] == FolderOf(t)
  {
    FoldersAreListedOnce(sorted, folders, given, t);
    assert FolderOf(t) in multiset(sorted);
    k :| 0 <= k < |sorted| && sorted[k] == FolderOf(t);
    TrailListed(given, t);
    TrailOfFolder(t);
  }

  lemma SortedIsListed(sorted: seq<Folder>, folders: seq<Folder>, given: seq<seq<string>>, paths: seq<string>)
    requires Ancestors(folders, given, paths) && multiset(sorted) == multiset(folders)
    ensures Ancestors(sorted, TrailsOf(sorted), paths)
  {
    hide TrailOf, FolderOf, Trail, Holds, TrailsOf;
    var trails := TrailsOf(sorted);
    forall k: nat | k < |sorted| ensures Trail(trails[k]) && sorted[k] == FolderOf(trails[k]) && trails[k] in given {
      hide Lists;
      SortedTrailAt(sorted, folders, given, k);
    }
    forall i: nat, j: nat | i < j < |sorted| ensures trails[i] != trails[j] {
      hide Lists;
      SortedTrailsDiffer(sorted, folders, given, i, j);
    }
    forall t | t in given ensures t in trails {
      hide Lists;
      var k := GivenIsSorted(sorted, folders, given, t);
      assert trails[k] == t;
    }
  }

  // ---- separated siblings give a pre-order ----

  /** Everything inside a folder follows it as one block. */
  ghost predicate PreOrder(trails: seq<seq<string>>) {
    forall i, k | 0 <= i < |trails| && 0 <= k < |trails| && Inside(trails[i], trails[k]) ::
      i < k && forall j | i < j < k :: Inside(trails[i], trails[j])
  }

  /** Where two trails part, if the second may stand between the first and something inside it. */
  lemma {:induction false} PartingTies(less: Less, a: seq<string>, b: seq<string>, c: seq<string>) returns (m: nat)
    requires !(a <= b) && !(b <= a) && a <= c && !Before(less, b, a) && !Before(less, c, b)
    ensures m < |a| && m < |b| && a[..m] == b[..m] && Tie(less, a[m], b[m])
    decreases |a|
  {
    if a[0] != b[0] {
      m := 0;
    } else {
      assert a == [a[0]] + a[1..] && b == [b[0]] + b[1..];
      var rest := PartingTies(less, a[1..], b[1..], c[1..]);
      m := rest + 1;
      assert a[..m] == [a[0]] + a[1..][..rest] && b[..m] == [b[0]] + b[1..][..rest];
    }
  }

  /** Two positions: something inside a folder comes after it. */
  lemma InsideComesLater(less: Less, paths: seq<string>, a: seq<string>, c: seq<string>)
    requires Separated(less, paths) && Listed(c, paths) && Trail(c) && Inside(a, c)
    ensures Before(less, SortKey(a), SortKey(c))
  {
    if a != [] {
      PrefixComesFirst(less, a, c);
    } else {
      assert c[0] != "";
    }
  }

  /** Two listed trails that part at a tie, with something inside the first, are not separated. */
  lemma PartingIsSibling(less: Less, paths: seq<string>, a: seq<string>, b: seq<string>, c: seq<string>, m: nat)
    requires Listed(a, paths) && Listed(b, paths) && Listed(c, paths) && Inside(a, c)
    requires m < |a| && m < |b| && a[..m] == b[..m] && Tie(less, a[m], b[m])
    ensures !Separated(less, paths)
  {
    hide Listed;
    ListedPrefix(a, m + 1, paths);
    ListedPrefix(b, m + 1, paths);
    var p, q := a[..m + 1], b[..m + 1];
    assert p[..m] == a[..m] && q[..m] == b[..m] && p[m] == a[m] && q[m] == b[m];
    assert TiedAround(less, paths, p, q, c);
  }

  /** Three positions: what stands between a folder and something inside it is inside it. */
  lemma BetweenIsInside(less: Less, paths: seq<string>, a: seq<string>, b: seq<string>, c: seq<string>)
    requires Separated(less, paths) && Listed(a, paths) && Listed(b, paths) && Listed(c, paths)
    requires Trail(a) && Inside(a, c) && a != b
    requires !Before(less, SortKey(b), SortKey(a)) && !Before(less, SortKey(c), SortKey(b))
    ensures Inside(a, b)
  {
    hide Separated, Listed, Tie;
    if a != [] && !(a <= b) {
      if b == [] {
        RootComesFirst(less, paths, a);
      } else if b <= a {
        PrefixComesFirst(less, b, a);
      } else {
        var m := PartingTies(less, a, b, c);
        PartingIsSibling(less, paths, a, b, c, m);
      }
    }
  }

  lemma RootComesFirst(less: Less, paths: seq<string>, a: seq<string>)
    requires Separated(less, paths) && Listed(a, paths) && Trail(a) && a != []
    ensures Before(less, SortKey([]), SortKey(a))
  {
    hide Listed;
    assert a[0] != "";
  }

  lemma InOrderAt(less: Less, sorted: seq<Folder>, i: nat, j: nat)
    requires InOrder(less, sorted) && i < j < |sorted|
    ensures !FolderBefore(less, sorted[j], sorted[i])
  {
  }

  /** Position by position: in a sorted list of separated siblings a folder comes before everything
      inside it, and what stands between is inside it too. */
  lemma FoldersAreInPreOrder(less: Less, sorted: seq<Folder>, trails: seq<seq<string>>, paths: seq<string>, i: nat, j: nat, k: nat)
    requires Separated(less, paths) && Ancestors(sorted, trails, paths) && InOrder(less, sorted)
    requires i < |sorted| && j < |sorted| && k < |sorted| && Inside(trails[i], trails[k])
    ensures i < k
    ensures i < j < k ==> Inside(trails[i], trails[j])
  {
    hide Separated, Before, Holds, SortKey, InOrder;
    TrailAt(sorted, trails, paths, i);
    TrailAt(sorted, trails, paths, j);
    TrailAt(sorted, trails, paths, k);
    InsideComesLater(less, paths, trails[i], trails[k]);
    if k < i { InOrderAt(less, sorted, k, i); }
    if i < j < k {
      InOrderAt(less, sorted, i, j);
      InOrderAt(less, sorted, j, k);
      BetweenIsInside(less, paths, trails[i], trails[j], trails[k]);
    }
  }

  lemma TrailAt(sorted: seq<Folder>, trails: seq<seq<string>>, paths: seq<string>, i: nat)
    requires Ancestors(sorted, trails, paths) && i < |sorted|
    ensures Trail(trails[i]) && Listed(trails[i], paths) && Split(sorted[i].path) == SortKey(trails[i])
  {
    hide Holds, Trail;
    assert trails[i] in trails;
    SortKeyIsSplit(trails[i]);
  }

  /** However the sort arranges the collected folders: if no folder with something inside it ties
      with a sibling, the list shown has the root and every ancestor folder of every document exactly
      once, the root first, in pre-order. */
  lemma FolderListIsPreOrder(less: Less, sorted: seq<Folder>, folders: seq<Folder>, paths: seq<string>)
    requires Separated(less, paths) && SortedFrom(less, sorted, folders)
    requires exists given :: Ancestors(folders, given, paths)
    ensures var trails := TrailsOf(sorted);
            Ancestors(sorted, trails, paths) && PreOrder(trails) && |trails| > 0 && trails[0] == []
  {
    hide Separated, InOrder, Lists, Holds, TrailsOf;
    var given :| Ancestors(folders, given, paths);
    SortedIsListed(sorted, folders, given, paths);
    var trails := TrailsOf(sorted);
    SameLength(sorted, trails, paths);
    forall i: nat, k: nat | i < |trails| && k < |trails| && Inside(trails[i], trails[k])
      ensures i < k && forall j | i < j < k :: Inside(trails[i], trails[j])
    {
      FoldersAreInPreOrder(less, sorted, trails, paths, i, i, k);
      forall j: nat | i < j < k ensures Inside(trails[i], trails[j]) {
        FoldersAreInPreOrder(less, sorted, trails, paths, i, j, k);
      }
    }
    assert [] in trails;
    var root: nat :| root < |trails| && trails[root] == [];
    RootFirst(trails, root);
  }

  lemma RootFirst(trails: seq<seq<string>>, root: nat)
    requires PreOrder(trails) && root < |trails| && trails[root] == []
    ensures trails[0] == []
  {
    var inside := Inside(trails[root], trails[0]);
  }

  lemma SameLength(sorted: seq<Folder>, trails: seq<seq<string>>, paths: seq<string>)
    requires Ancestors(sorted, trails, paths)
    ensures |trails| == |sorted|
  {
  }

  // ---- and tying siblings do not ----

  /** Texts compared character by character. */
  predicate CharLess(a: string, b: string) {
    if |b| == 0 then false
    else if |a| == 0 then true
    else if a[0] != b[0] then a[0] < b[0]
    else CharLess(a[1..], b[1..])
  }

  lemma {:induction false} CharLessIsTotal(a: string, b: string)
    ensures a != b <==> CharLess(a, b) || CharLess(b, a)
    ensures !(CharLess(a, b) && CharLess(b, a))
  {
    if |a| > 0 && |b| > 0 && a[0] == b[0] {
      CharLessIsTotal(a[1..], b[1..]);
      assert a == [a[0]] + a[1..] && b == [b[0]] + b[1..];
    }
  }

  lemma {:induction false} CharLessIsTransitive(a: string, b: string, c: string)
    requires CharLess(a, b) && CharLess(b, c)
    ensures CharLess(a, c)
  {
    if |a| > 0 && a[0] == b[0] == c[0] { CharLessIsTransitive(a[1..], b[1..], c[1..]); }
  }

  ghost predicate TotalOrder(less: Less) {
    && (forall a: string :: !less(a, a))
    && (forall a: string, b: string, c: string | less(a, b) && less(b, c) :: less(a, c))
    && (forall a: string, b: string | a != b :: less(a, b) || less(b, a))
  }

  /** Ties broken in favour of one text, then character by character. */
  predicate Breaks(first: string, a: string, b: string) {
    a != b && b != first && (a == first || CharLess(a, b))
  }

  ghost function Broken(less: Less, first: string): Less {
    (a, b) => less(a, b) || (!less(b, a) && Breaks(first, a, b))
  }

  lemma BreaksIsTotal(first: string, a: string, b: string, c: string)
    ensures a != b ==> Breaks(first, a, b) || Breaks(first, b, a)
    ensures !(Breaks(first, a, b) && Breaks(first, b, a))
    ensures Breaks(first, a, b) && Breaks(first, b, c) ==> Breaks(first, a, c)
  {
    hide CharLess;
    CharLessIsTotal(a, b);
    CharLessIsTotal(b, c);
    CharLessIsTotal(a, c);
    if CharLess(a, b) && CharLess(b, c) { CharLessIsTransitive(a, b, c); }
  }

  lemma BrokenIsTotal(less: Less, first: string)
    requires WeakOrder(less)
    ensures TotalOrder(Broken(less, first))
  {
    hide Breaks;
    var total := Broken(less, first);
    forall a: string, b: string, c: string | total(a, b) && total(b, c) ensures total(a, c) {
      BreaksIsTotal(first, a, b, c);
    }
    forall a: string, b: string | a != b ensures total(a, b) || total(b, a) { BreaksIsTotal(first, a, b, a); }
    forall a: string ensures !total(a, a) { BreaksIsTotal(first, a, a, a); }
  }

  lemma TotalIsAsymmetric(less: Less, a: string, b: string)
    requires TotalOrder(less)
    ensures !(less(a, b) && less(b, a))
  {
  }

  lemma {:induction false} BeforeIsTotal(less: Less, a: seq<string>, b: seq<string>)
    requires TotalOrder(less)
    ensures a != b ==> Before(less, a, b) || Before(less, b, a)
    ensures !(Before(less, a, b) && Before(less, b, a))
  {
    if |a| > 0 && |b| > 0 {
      if a[0] == b[0] {
        BeforeIsTotal(less, a[1..], b[1..]);
        assert a == [a[0]] + a[1..] && b == [b[0]] + b[1..];
      } else {
        TotalIsAsymmetric(less, a[0], b[0]);
      }
    }
  }

  lemma {:induction false} BeforeIsTransitive(less: Less, a: seq<string>, b: seq<string>, c: seq<string>)
    requires TotalOrder(less) && Before(less, a, b) && Before(less, b, c)
    ensures Before(less, a, c)
  {
    if |a| > 0 && a[0] == b[0] == c[0] { BeforeIsTransitive(less, a[1..], b[1..], c[1..]); }
  }

  lemma {:induction false} BrokenIsFiner(less: Less, first: string, a: seq<string>, b: seq<string>)
    requires Before(less, a, b)
    ensures Before(Broken(less, first), a, b)
  {
    if |a| > 0 && a[0] == b[0] { BrokenIsFiner(less, first, a[1..], b[1..]); }
  }

  // ---- a sorted arrangement ----

  function Placed(less: Less, sorted: seq<Folder>, folder: Folder): seq<Folder> {
    if |sorted| == 0 || FolderBefore(less, folder, sorted[0]) then [folder] + sorted
    else [sorted[0]] + Placed(less, sorted[1..], folder)
  }

  lemma {:induction false} PlacedHolds(less: Less, sorted: seq<Folder>, folder: Folder)
    ensures multiset(Placed(less, sorted, folder)) == multiset(sorted) + multiset{folder}
    decreases |sorted|
  {
    if |sorted| > 0 && !FolderBefore(less, folder, sorted[0]) {
      PlacedHolds(less, sorted[1..], folder);
      assert sorted == [sorted[0]] + sorted[1..];
    }
  }

  lemma {:induction false} PlacedInOrder(less: Less, sorted: seq<Folder>, folder: Folder)
    requires TotalOrder(less) && InOrder(less, sorted)
    ensures InOrder(less, Placed(less, sorted, folder))
    decreases |sorted|
  {
    hide TotalOrder;
    var all := Placed(less, sorted, folder);
    if |sorted| == 0 {
    } else if FolderBefore(less, folder, sorted[0]) {
      forall j: nat | 1 <= j < |all| ensures !FolderBefore(less, all[j], folder) {
        FolderOrder(less, all[j], folder, sorted[0]);
        FolderOrder(less, folder, sorted[0], folder);
      }
    } else {
      PlacedInOrder(less, sorted[1..], folder);
      PlacedHolds(less, sorted[1..], folder);
      forall j: nat | 1 <= j < |all| ensures !FolderBefore(less, all[j], sorted[0]) {
        assert all[j] == Placed(less, sorted[1..], folder)[j - 1];
        assert all[j] in multiset(Placed(less, sorted[1..], folder));
      }
    }
  }

  lemma FolderOrder(less: Less, a: Folder, b: Folder, c: Folder)
    requires TotalOrder(less)
    ensures FolderBefore(less, a, b) && FolderBefore(less, b, c) ==> FolderBefore(less, a, c)
    ensures !(FolderBefore(less, a, b) && FolderBefore(less, b, a))
  {
    hide TotalOrder, Before, Split;
    BeforeIsTotal(less, Split(a.path), Split(b.path));
    if FolderBefore(less, a, b) && FolderBefore(less, b, c) {
      BeforeIsTransitive(less, Split(a.path), Split(b.path), Split(c.path));
    }
  }

  lemma {:induction false} Arranged(less: Less, folders: seq<Folder>) returns (sorted: seq<Folder>)
    requires TotalOrder(less)
    ensures SortedFrom(less, sorted, folders)
    decreases |folders|
  {
    hide TotalOrder;
    if |folders| == 0 {
      sorted := [];
    } else {
      var n := |folders| - 1;
      var before := Arranged(less, folders[..n]);
      PlacedInOrder(less, before, folders[n]);
      PlacedHolds(less, before, folders[n]);
      assert folders == folders[..n] + [folders[n]];
      sorted := Placed(less, before, folders[n]);
    }
  }

  lemma FinerInOrder(less: Less, first: string, sorted: seq<Folder>)
    requires InOrder(Broken(less, first), sorted)
    ensures InOrder(less, sorted)
  {
    hide Before, Split, Broken;
    forall i: nat, j: nat | i < j < |sorted| ensures !FolderBefore(less, sorted[j], sorted[i]) {
      if FolderBefore(less, sorted[j], sorted[i]) {
        BrokenIsFiner(less, first, Split(sorted[j].path), Split(sorted[i].path));
      }
    }
  }

  // ---- putting a tying sibling right after the other ----

  /** Whatever comes after a folder, its tie with a sibling broken its way, does not strictly
      precede the sibling. */
  lemma {:induction false} TiedStaysBehind(less: Less, p: seq<string>, q: seq<string>, x: seq<string>)
    requires WeakOrder(less) && |p| == |q| > 0 && p[..|p| - 1] == q[..|q| - 1] && Tie(less, p[|p| - 1], q[|q| - 1])
    requires Before(Broken(less, p[|p| - 1]), p, x)
    ensures !Before(less, x, q)
    decreases |p|
  {
    var first := p[|p| - 1];
    if |p| > 1 {
      assert p[0] == p[..|p| - 1][0] == q[..|q| - 1][0] == q[0];
      assert p[1..][..|p| - 2] == p[..|p| - 1][1..] == q[..|q| - 1][1..] == q[1..][..|q| - 2];
      assert p[1..][|p| - 2] == first;
      if x[0] == p[0] { TiedStaysBehind(less, p[1..], q[1..], x[1..]); }
    } else {
      assert p[1..] == [] && q[1..] == [];
    }
  }

  /** The arrangement with the second folder moved to right after the first. */
  lemma MovedInOrder(less: Less, rest: seq<Folder>, i: nat, q: Folder, p: seq<string>, qt: seq<string>)
    requires WeakOrder(less) && i < |rest| && |p| > 0 && InOrder(Broken(less, p[|p| - 1]), rest)
    requires |p| == |qt| && p[..|p| - 1] == qt[..|qt| - 1] && Tie(less, p[|p| - 1], qt[|qt| - 1])
    requires Split(rest[i].path) == p && Split(q.path) == qt
    requires forall k | 0 <= k < |rest| && k != i :: Split(rest[k].path) != p
    ensures InOrder(less, rest[..i + 1] + [q] + rest[i + 1..])
  {
    hide WeakOrder, Split, Before, TotalOrder, Tie;
    var first := p[|p| - 1];
    var total := Broken(less, first);
    BrokenIsTotal(less, first);
    TiedComesFirst(less, p, qt);
    FinerInOrder(less, first, rest);
    forall k: nat | k <= i ensures !FolderBefore(less, q, rest[k]) {
      if FolderBefore(less, q, rest[k]) {
        BrokenIsFiner(less, first, qt, Split(rest[k].path));
        BeforeIsTransitive(total, p, qt, Split(rest[k].path));
        BeforeIsTotal(total, p, p);
        if k < i { InOrderAt(total, rest, k, i); }
      }
    }
    forall k: nat | i < k < |rest| ensures !FolderBefore(less, rest[k], q) {
      InOrderAt(total, rest, i, k);
      BeforeIsTotal(total, p, Split(rest[k].path));
      TiedStaysBehind(less, p, qt, Split(rest[k].path));
    }
    var all := rest[..i + 1] + [q] + rest[i + 1..];
    forall a: nat, b: nat | a < b < |all| ensures !FolderBefore(less, all[b], all[a]) {
      var from, to := if a <= i then a else a - 1, if b <= i then b else b - 1;
      if a != i + 1 && b != i + 1 {
        assert all[a] == rest[from] && all[b] == rest[to];
        InOrderAt(less, rest, from, to);
      }
    }
  }

  lemma {:induction false} TiedComesFirst(less: Less, p: seq<string>, q: seq<string>)
    requires |p| == |q| > 0 && p[..|p| - 1] == q[..|q| - 1] && Tie(less, p[|p| - 1], q[|q| - 1])
    ensures Before(Broken(less, p[|p| - 1]), p, q)
    decreases |p|
  {
    if |p| > 1 {
      assert p[0] == p[..|p| - 1][0] == q[..|q| - 1][0] == q[0];
      assert p[1..][..|p| - 2] == p[..|p| - 1][1..] == q[..|q| - 1][1..] == q[1..][..|q| - 2];
      TiedComesFirst(less, p[1..], q[1..]);
    }
  }

  /** Siblings that tie, with a folder inside the first: an arrangement with the second in between. */
  lemma TiedSiblingsBreak(
    less: Less, folders: seq<Folder>, given: seq<seq<string>>, paths: seq<string>, p: seq<string>, q: seq<string>, c: seq<string>)
    returns (sorted: seq<Folder>)
    requires WeakOrder(less) && Ancestors(folders, given, paths) && p in given && q in given && c in given
    requires Siblings(p, q) && Inside(p, c) && Tie(less, p[|p| - 1], q[|q| - 1])
    ensures SortedFrom(less, sorted, folders) && !PreOrder(TrailsOf(sorted))
  {
    hide WeakOrder, TotalOrder, Lists, Holds, Trail, FolderOf, TrailOf, TrailsOf, Tie, Split, FolderBefore, InOrder, PreOrder;
    var total := Broken(less, p[|p| - 1]);
    BrokenIsTotal(less, p[|p| - 1]);
    var at := GivenIsSorted(folders, folders, given, q);
    var others := folders[..at] + folders[at + 1..];
    var rest := Arranged(total, others);
    assert folders == folders[..at] + [folders[at]] + folders[at + 1..];
    assert multiset(folders) == multiset(rest) + multiset{folders[at]};
    var i := RestHolds(folders, given, rest, at, p);
    RestKeys(folders, given, rest, at, i);
    KeyOfTrail(folders, given, p);
    KeyOfTrail(folders, given, q);
    MovedInOrder(less, rest, i, folders[at], p, q);
    sorted := rest[..i + 1] + [folders[at]] + rest[i + 1..];
    assert rest == rest[..i + 1] + rest[i + 1..];
    var k := GivenIsSorted(sorted, folders, given, c);
    assert sorted[i] == rest[i] && sorted[i + 1] == folders[at];
    BrokenPreOrder(TrailsOf(sorted), i, k, p, q, c);
  }

  /** A trail between two others that is not inside the first. */
  lemma BrokenPreOrder(trails: seq<seq<string>>, i: nat, k: nat, p: seq<string>, q: seq<string>, c: seq<string>)
    requires i + 1 < |trails| && k < |trails| && trails[i] == p && trails[i + 1] == q && trails[k] == c
    requires Inside(p, c) && |p| == |q| && p != q
    ensures !PreOrder(trails)
  {
    var inside, between := Inside(trails[i], trails[k]), Inside(trails[i], trails[i + 1]);
  }

  lemma KeyOfTrail(folders: seq<Folder>, given: seq<seq<string>>, t: seq<string>)
    requires Lists(folders, given) && t in given && t != []
    ensures Split(FolderOf(t).path) == t
  {
    TrailListed(given, t);
    SortKeyIsSplit(t);
  }

  lemma RestHolds(folders: seq<Folder>, given: seq<seq<string>>, rest: seq<Folder>, at: nat, p: seq<string>) returns (i: nat)
    requires Lists(folders, given) && at < |folders| && multiset(folders) == multiset(rest) + multiset{folders[at]}
    requires p in given && TrailOf(folders[at].path) != p
    ensures i < |rest| && rest[i] == FolderOf(p) && TrailOf(rest[i].path) == p
  {
    TrailListed(given, p);
    TrailOfFolder(p);
    FoldersAreListedOnce(folders, folders, given, p);
    assert FolderOf(p) in multiset(rest);
    i :| 0 <= i < |rest| && rest[i] == FolderOf(p);
  }

  lemma RestKeys(folders: seq<Folder>, given: seq<seq<string>>, rest: seq<Folder>, at: nat, i: nat)
    requires Lists(folders, given) && at < |folders| && multiset(folders) == multiset(rest) + multiset{folders[at]} && i < |rest|
    ensures forall k | 0 <= k < |rest| && k != i :: Split(rest[k].path) != Split(rest[i].path)
  {
    hide Split;
    var all := rest + [folders[at]];
    assert multiset(all) == multiset(folders);
    forall k: nat | k < |rest| && k != i ensures Split(rest[k].path) != Split(rest[i].path) {
      hide Lists;
      assert all[k] == rest[k] && all[i] == rest[i];
      KeysDiffer(all, folders, given, if k < i then k else i, if k < i then i else k);
    }
  }

  lemma KeysDiffer(sorted: seq<Folder>, folders: seq<Folder>, given: seq<seq<string>>, i: nat, j: nat)
    requires Lists(folders, given) && multiset(sorted) == multiset(folders) && i < j < |sorted|
    ensures Split(sorted[i].path) != Split(sorted[j].path)
  {
    hide Lists, Split, FolderOf, TrailOf;
    SortedTrailsDiffer(sorted, folders, given, i, j);
    SortedTrailAt(sorted, folders, given, i);
    SortedTrailAt(sorted, folders, given, j);
    SortKeysDiffer(TrailOf(sorted[i].path), TrailOf(sorted[j].path));
  }

  lemma SortKeysDiffer(a: seq<string>, b: seq<string>)
    requires Trail(a) && Trail(b) && a != b
    ensures SortKey(a) != SortKey(b)
  {
    assert a != [] ==> a[0] != "";
    assert b != [] ==> b[0] != "";
  }

  /** A top folder that ties with the root: an arrangement with the root after it. */
  lemma TiedRootBreaks(less: Less, folders: seq<Folder>, given: seq<seq<string>>, paths: seq<string>, top: string)
    returns (sorted: seq<Folder>)
    requires WeakOrder(less) && Ancestors(folders, given, paths) && [top] in given && top != "" && !less("", top)
    ensures SortedFrom(less, sorted, folders) && !PreOrder(TrailsOf(sorted))
  {
    hide WeakOrder, TotalOrder, Lists, Holds, Trail, FolderOf, TrailOf, TrailsOf, Split, InOrder, PreOrder;
    var total := Broken(less, top);
    BrokenIsTotal(less, top);
    sorted := Arranged(total, folders);
    FinerInOrder(less, top, sorted);
    var z := GivenIsSorted(sorted, folders, given, [top]);
    var root := GivenIsSorted(sorted, folders, given, []);
    SortedTrailAt(sorted, folders, given, z);
    SortedTrailAt(sorted, folders, given, root);
    TopComesFirst(less, top);
    if root < z { InOrderAt(total, sorted, root, z); }
    RootNotFirst(TrailsOf(sorted), z, root, top);
  }

  lemma TopComesFirst(less: Less, top: string)
    requires WeakOrder(less) && top != "" && !less("", top)
    ensures Before(Broken(less, top), SortKey([top]), SortKey([]))
  {
  }

  lemma RootNotFirst(trails: seq<seq<string>>, z: nat, root: nat, top: string)
    requires z < |trails| && root < |trails| && trails[z] == [top] && trails[root] == [] && z <= root
    ensures !PreOrder(trails)
  {
    assert Inside(trails[root], trails[z]);
  }

  /** Paths that are not separated: an arrangement that is no pre-order. */
  lemma UnseparatedBreaks(less: Less, folders: seq<Folder>, given: seq<seq<string>>, paths: seq<string>) returns (sorted: seq<Folder>)
    requires WeakOrder(less) && Ancestors(folders, given, paths) && !Separated(less, paths)
    ensures SortedFrom(less, sorted, folders) && !PreOrder(TrailsOf(sorted))
  {
    hide WeakOrder, Lists, Holds, TrailsOf, PreOrder, SortedFrom, Tie, TiedAround;
    if a, b, c :| TiedAround(less, paths, a, b, c) {
      AroundIsGiven(less, folders, given, paths, a, b, c);
      sorted := TiedSiblingsBreak(less, folders, given, paths, a, b, c);
    } else {
      var c :| Listed(c, paths) && c != [] && !less("", c[0]);
      ListedPrefix(c, 1, paths);
      assert c[..1] == [c[0]];
      NotBlank(folders, given, paths, c[0]);
      sorted := TiedRootBreaks(less, folders, given, paths, c[0]);
    }
  }

  lemma AroundIsGiven(
    less: Less, folders: seq<Folder>, given: seq<seq<string>>, paths: seq<string>, a: seq<string>, b: seq<string>, c: seq<string>)
    requires Ancestors(folders, given, paths) && TiedAround(less, paths, a, b, c)
    ensures a in given && b in given && c in given && Siblings(a, b) && Inside(a, c) && Tie(less, a[|a| - 1], b[|b| - 1])
  {
    hide Lists, Holds, Tie;
  }

  /** Exactly when the folder list is right: every arrangement the sort may produce is a pre-order if
      and only if no folder with something inside it ties with a sibling, and none with the root. */
  lemma PreOrderExactlyWhen(less: Less, folders: seq<Folder>, paths: seq<string>)
    requires WeakOrder(less) && exists given :: Ancestors(folders, given, paths)
    ensures (forall sorted | SortedFrom(less, sorted, folders) :: PreOrder(TrailsOf(sorted))) <==> Separated(less, paths)
  {
    hide WeakOrder, Ancestors, TrailsOf, PreOrder, SortedFrom, Separated;
    var given :| Ancestors(folders, given, paths);
    if Separated(less, paths) {
      forall sorted | SortedFrom(less, sorted, folders) ensures PreOrder(TrailsOf(sorted)) {
        FolderListIsPreOrder(less, sorted, folders, paths);
      }
    } else {
      var sorted := UnseparatedBreaks(less, folders, given, paths);
    }
  }

  lemma NotBlank(folders: seq<Folder>, given: seq<seq<string>>, paths: seq<string>, top: string)
    requires Ancestors(folders, given, paths) && Listed([top], paths)
    ensures [top] in given && top != ""
  {
    hide Holds;
    TrailListed(given, [top]);
    assert [top][0] != "";
  }
}
