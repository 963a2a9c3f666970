/** Two folder names that are canonically equivalent, and a folder list that mixes their contents. */
module TiedFolders {
  import opened Paths
  import opened DocumentFolders

  /** "é" as one character, and as an "e" with a combining accent. */
  function Composed(): string { "\U{00E9}" }

  function Decomposed(): string { "e\U{0301}" }

  function Canonical(name: string): string {
    if name == Decomposed() then Composed() else name
  }

  /** Names compared character by character after composing the one name. */
  predicate Collates(a: string, b: string) {
    CharLess(Canonical(a), Canonical(b))
  }

  lemma CollatesIsWeak()
    ensures WeakOrder(Collates)
  {
    hide CharLess, Canonical;
    forall a: string ensures !Collates(a, a) && !Collates(a, "") {
      CharLessIsTotal(Canonical(a), Canonical(a));
      NothingBeforeBlank(a);
    }
    forall a: string, b: string, c: string | Collates(a, b) && Collates(b, c) ensures Collates(a, c) {
      CharLessIsTransitive(Canonical(a), Canonical(b), Canonical(c));
    }
    forall a: string, b: string, c: string | Collates(a, c) ensures Collates(a, b) || Collates(b, c) {
      CharLessIsTotal(Canonical(a), Canonical(b));
      if CharLess(Canonical(b), Canonical(a)) { CharLessIsTransitive(Canonical(b), Canonical(a), Canonical(c)); }
    }
  }

  lemma NothingBeforeBlank(a: string)
    ensures !CharLess(Canonical(a), Canonical(""))
  {
  }

  /** The comparisons needed below. */
  lemma NamesCompare()
    ensures Tie(Collates, Composed(), Decomposed()) && Tie(Collates, Decomposed(), Composed())
    ensures !Collates("c", "a")
  {
    var p, q := Composed(), Decomposed();
    assert |p| == 1 && |q| == 2;
    CharLessIsTotal(p, p);
    assert "c"[0] == 'c' && "a"[0] == 'a';
  }

  lemma PlainNames()
    ensures '/' !in Composed() && '/' !in Decomposed() && Composed() != "" && Decomposed() != ""
  {
  }

  /** Three documents in the two folders. */
  function Documents(): seq<string> {
    [Join([Composed(), "a", "1"]), Join([Decomposed(), "b", "1"]), Join([Composed(), "c", "1"])]
  }

  /** Their folders in the order in which they are collected. */
  function Folders(): seq<seq<string>> {
    [[], [Composed()], [Composed(), "a"], [Decomposed()], [Decomposed(), "b"], [Composed(), "c"]]
  }

  ghost function Collected(): seq<Folder> {
    seq(6, i requires 0 <= i < 6 => FolderOf(Folders()[i]))
  }

  lemma FoldersOfThree(a: string, b: string, c: string)
    requires '/' !in a && '/' !in b && '/' !in c && a != "" && b != "" && c != ""
    ensures FolderSegments(Join([a, b, c])) == [a, b] && Trail([a]) && Trail([a, b])
  {
    var parts := [a, b, c];
    assert SlashFree(parts) && "" !in parts;
    SplitJoin(parts);
    NonEmptyKeeps(parts);
    assert parts[..2] == [a, b];
  }

  lemma PrefixOfTwo(t: seq<string>, a: string, b: string)
    ensures t <= [a, b] <==> t == [] || t == [a] || t == [a, b]
  {
  }

  lemma CollectedTrails()
    ensures Ancestors(Collected(), Folders(), Documents())
  {
    hide FolderSegments, Join, FolderOf, Composed, Decomposed;
    var p, q, documents := Composed(), Decomposed(), Documents();
    PlainNames();
    NamesDiffer();
    FoldersOfThree(p, "a", "1");
    FoldersOfThree(q, "b", "1");
    FoldersOfThree(p, "c", "1");
    forall t ensures t in Folders() <==> t == [] || Holds(t, documents) {
      PrefixOfTwo(t, p, "a");
      PrefixOfTwo(t, q, "b");
      PrefixOfTwo(t, p, "c");
      HoldsOfThree(t, documents);
    }
  }

  lemma NamesDiffer()
    ensures Composed() != Decomposed()
  {
    assert |Composed()| == 1 && |Decomposed()| == 2;
  }

  lemma HoldsOfThree(t: seq<string>, documents: seq<string>)
    requires |documents| == 3
    ensures Holds(t, documents) <==>
            t <= FolderSegments(documents[0]) || t <= FolderSegments(documents[1]) || t <= FolderSegments(documents[2])
  {
    hide FolderSegments;
    assert Holds(t, documents) <== t <= FolderSegments(documents[0]);
  }

  /** The comparator on keys of one or two segments. */
  lemma BeforeShort(less: Less, a: seq<string>, b: seq<string>)
    requires 1 <= |a| <= 2 && 1 <= |b| <= 2
    ensures Before(less, a, b) <==>
            if a[0] != b[0] then less(a[0], b[0])
            else if |b| == 1 then false
            else if |a| == 1 then true
            else a[1] != b[1] && less(a[1], b[1])
  {
    if a[0] == b[0] && |b| == 2 && |a| == 2 {
      assert a[1..][0] == a[1] && b[1..][0] == b[1] && a[1..][1..] == [] && b[1..][1..] == [];
    }
  }

  lemma CollectedInOrder()
    ensures InOrder(Collates, Collected())
  {
    hide Before, Collates, Composed, Decomposed, Split, FolderOf;
    var folders, sorted := Folders(), Collected();
    CollatesIsWeak();
    NamesCompare();
    CollectedTrails();
    forall i: nat, j: nat | i < j < 6 ensures !FolderBefore(Collates, sorted[j], sorted[i]) {
      SortKeyIsSplit(folders[i]);
      SortKeyIsSplit(folders[j]);
      BeforeShort(Collates, SortKey(folders[j]), SortKey(folders[i]));
      NoneBefore(i, j);
    }
  }

  lemma NoneBefore(i: nat, j: nat)
    requires i < j < 6 && Tie(Collates, Composed(), Decomposed()) && !Collates("c", "a")
    requires forall a: string :: !Collates(a, "") && !Collates(a, a)
    ensures var a, b := SortKey(Folders()[j]), SortKey(Folders()[i]);
            !(if a[0] != b[0] then Collates(a[0], b[0])
              else if |b| == 1 then false
              else if |a| == 1 then true
              else a[1] != b[1] && Collates(a[1], b[1]))
  {
    hide Collates, Composed, Decomposed;
  }

  /** The list as collected has no folder strictly before an earlier one, so a sort may leave it as
      it is; and it is no pre-order: a folder inside the one name follows the contents of the other. */
  lemma TiedNamesAreMixed()
    ensures WeakOrder(Collates) && Ancestors(Collected(), Folders(), Documents())
    ensures SortedFrom(Collates, Collected(), Collected()) && !PreOrder(TrailsOf(Collected()))
    ensures !Separated(Collates, Documents())
  {
    hide WeakOrder, Ancestors, InOrder, TrailsOf, PreOrder, Separated;
    CollatesIsWeak();
    CollectedTrails();
    CollectedInOrder();
    PreOrderExactlyWhen(Collates, Collected(), Documents());
    CollectedIsMixed();
  }

  lemma CollectedIsMixed()
    ensures !PreOrder(TrailsOf(Collected()))
  {
    hide Composed, Decomposed, TrailOf, FolderOf, Holds;
    var trails := TrailsOf(Collected());
    CollectedTrails();
    NamesDiffer();
    forall k: nat | k < 6 ensures trails[k] == Folders()[k] { TrailOfFolder(Folders()[k]); }
    BrokenPreOrder(trails, 2, 5);
  }

  lemma BrokenPreOrder(trails: seq<seq<string>>, j: nat, k: nat)
    requires 1 < j < k < |trails| && Inside(trails[1], trails[k]) && !Inside(trails[1], trails[j + 1]) && j + 1 < k
    ensures !PreOrder(trails)
  {
    var between := Inside(trails[1], trails[j + 1]);
  }
}
