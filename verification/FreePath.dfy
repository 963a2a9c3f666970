/** Choosing a path no other document occupies, ignoring case. */
module FreePath {
  import opened Paths

  // ---- parts of a path ----

  function FileName(path: string): string {
    var parts := Segments(path);
    if path == "" then "Untitled" else if |parts| > 0 then parts[|parts| - 1] else path
  }

  function ParentPath(path: string): string {
    var parts := Segments(path);
    if |parts| <= 1 then "" else Join(parts[..|parts| - 1])
  }

  /** The position of the last dot, or -1. */
  function LastDot(s: string): (i: int)
    ensures -1 <= i < |s|
  {
    if |s| == 0 then -1 else if s[|s| - 1] == '.' then |s| - 1 else LastDot(s[..|s| - 1])
  }

  function NameExtension(name: string): (extension: string)
    ensures |extension| > 0
  {
    var dot := LastDot(name);
    if 0 < dot < |name| - 1 then name[dot..] else ".md"
  }

  function NameStem(name: string): string {
    var extension := NameExtension(name);
    var cut := |name| - |extension|;
    var stem := if cut >= 0 && name[cut..] == extension then name[..cut] else name;
    if stem == "" then "Untitled" else stem
  }

  function DocumentExtension(path: string): string {
    NameExtension(FileName(path))
  }

  function DocumentStem(path: string): string {
    NameStem(FileName(path))
  }

  function JoinDocumentPath(folder: string, name: string): string {
    if folder != "" then folder + "/" + name else name
  }

  function Digits(n: nat): string {
    if n < 10 then [(48 + n) as char] else Digits(n / 10) + [(48 + n % 10) as char]
  }

  function Candidate(path: string, suffix: nat): string {
    JoinDocumentPath(ParentPath(path), DocumentStem(path) + "-" + Digits(suffix) + DocumentExtension(path))
  }

  // ---- occupied names ----

  datatype Document = Document(id: string, path: string)

  /** Lower-casing maps each character to a text of its own. */
  type Lower = char -> string

  function LowerAll(s: string, lower: Lower): string {
    if |s| == 0 then "" else lower(s[0]) + LowerAll(s[1..], lower)
  }

  ghost predicate KeepsDigits(lower: Lower) {
    forall c: char :: '0' <= c <= '9' ==> lower(c) == [c]
  }

  function Occupied(documents: seq<Document>, current: string, lower: Lower): set<string> {
    set i | 0 <= i < |documents| && documents[i].id != current :: LowerAll(documents[i].path, lower)
  }

  /** The path is free, or the first free candidate is taken, or the clock decides. */
  ghost predicate Choice(occupied: set<string>, path: string, lower: Lower, now: nat, chosen: string) {
    if LowerAll(path, lower) !in occupied then chosen == path
    else
      (exists k: nat :: 2 <= k < 10_000 && chosen == Candidate(path, k) && LowerAll(chosen, lower) !in occupied
        && forall j: nat | 2 <= j < k :: LowerAll(Candidate(path, j), lower) in occupied)
      || (chosen == Candidate(path, now) && forall j: nat | 2 <= j < 10_000 :: LowerAll(Candidate(path, j), lower) in occupied)
  }

  method UniqueDocumentPath(documents: seq<Document>, path: string, current: string, lower: Lower, now: nat) returns (chosen: string)
    ensures Choice(Occupied(documents, current, lower), path, lower, now, chosen)
  {
    hide Candidate, LowerAll, Occupied;
    var occupied := Occupied(documents, current, lower);
    if LowerAll(path, lower) !in occupied { return path; }
    for suffix: nat := 2 to 10_000
      invariant forall j: nat | 2 <= j < suffix :: LowerAll(Candidate(path, j), lower) in occupied
    {
      var candidate := Candidate(path, suffix);
      if LowerAll(candidate, lower) !in occupied { return candidate; }
    }
    chosen := Candidate(path, now);
  }

  // ---- the candidates are distinct ignoring case ----

  lemma {:induction false} LowerConcat(a: string, b: string, lower: Lower)
    ensures LowerAll(a + b, lower) == LowerAll(a, lower) + LowerAll(b, lower)
  {
    if |a| == 0 {
      assert a + b == b;
    } else {
      assert (a + b)[1..] == a[1..] + b;
      LowerConcat(a[1..], b, lower);
    }
  }

  predicate AllDigits(s: string) {
    forall i | 0 <= i < |s| :: '0' <= s[i] <= '9'
  }

  lemma {:induction false} DigitsAreDigits(n: nat)
    ensures AllDigits(Digits(n)) && |Digits(n)| > 0
  {
    if n >= 10 { DigitsAreDigits(n / 10); }
  }

  lemma {:induction false} LowerKeepsDigits(s: string, lower: Lower)
    requires KeepsDigits(lower) && AllDigits(s)
    ensures LowerAll(s, lower) == s
  {
    if |s| > 0 {
      LowerKeepsDigits(s[1..], lower);
      assert s == [s[0]] + s[1..];
    }
  }

  lemma {:induction false} DigitsInjective(a: nat, b: nat)
    requires Digits(a) == Digits(b)
    ensures a == b
  {
    DigitsAreDigits(a / 10);
    DigitsAreDigits(b / 10);
    var s, t := Digits(a), Digits(b);
    assert s[|s| - 1] == t[|t| - 1];
    if a >= 10 && b >= 10 {
      assert Digits(a / 10) == s[..|s| - 1] == t[..|t| - 1] == Digits(b / 10);
      DigitsInjective(a / 10, b / 10);
    }
  }

  lemma CandidateShape(path: string, suffix: nat)
    ensures Candidate(path, suffix) ==
            JoinDocumentPath(ParentPath(path), DocumentStem(path) + "-") + Digits(suffix) + DocumentExtension(path)
  {
    hide ParentPath, DocumentStem, DocumentExtension, Digits;
  }

  lemma LoweredCandidate(path: string, suffix: nat, lower: Lower)
    requires KeepsDigits(lower)
    ensures LowerAll(Candidate(path, suffix), lower) ==
            LowerAll(JoinDocumentPath(ParentPath(path), DocumentStem(path) + "-"), lower) + Digits(suffix)
            + LowerAll(DocumentExtension(path), lower)
  {
    hide Candidate, JoinDocumentPath, ParentPath, DocumentStem, DocumentExtension, Digits, LowerAll;
    var head := JoinDocumentPath(ParentPath(path), DocumentStem(path) + "-");
    CandidateShape(path, suffix);
    LowerConcat(head + Digits(suffix), DocumentExtension(path), lower);
    LowerConcat(head, Digits(suffix), lower);
    DigitsAreDigits(suffix);
    LowerKeepsDigits(Digits(suffix), lower);
  }

  lemma Between(head: string, a: string, b: string, tail: string)
    requires head + a + tail == head + b + tail
    ensures a == b
  {
    assert |a| == |b|;
    assert a == (head + a + tail)[|head|..|head| + |a|];
    assert b == (head + b + tail)[|head|..|head| + |b|];
  }

  lemma CandidatesDiffer(path: string, a: nat, b: nat, lower: Lower)
    requires KeepsDigits(lower) && a != b
    ensures LowerAll(Candidate(path, a), lower) != LowerAll(Candidate(path, b), lower)
  {
    hide Candidate, JoinDocumentPath, ParentPath, DocumentStem, DocumentExtension, Digits, LowerAll;
    if LowerAll(Candidate(path, a), lower) == LowerAll(Candidate(path, b), lower) {
      LoweredCandidate(path, a, lower);
      LoweredCandidate(path, b, lower);
      Between(LowerAll(JoinDocumentPath(ParentPath(path), DocumentStem(path) + "-"), lower), Digits(a), Digits(b),
              LowerAll(DocumentExtension(path), lower));
      DigitsInjective(a, b);
    }
  }

  // ---- pigeonhole ----

  /** If the candidates 2 .. k - 1 are all occupied, at least k - 2 names are. */
  lemma {:induction false} OccupiedCandidates(occupied: set<string>, path: string, k: nat, lower: Lower) returns (names: set<string>)
    requires KeepsDigits(lower) && k >= 2
    requires forall j: nat | 2 <= j < k :: LowerAll(Candidate(path, j), lower) in occupied
    ensures names <= occupied && |names| == k - 2
    ensures forall name :: name in names ==> exists j: nat :: 2 <= j < k && name == LowerAll(Candidate(path, j), lower)
  {
    hide Candidate, LowerAll, KeepsDigits;
    if k == 2 {
      names := {};
    } else {
      var before := OccupiedCandidates(occupied, path, k - 1, lower);
      var last := LowerAll(Candidate(path, k - 1), lower);
      forall j: nat | 2 <= j < k - 1 ensures LowerAll(Candidate(path, j), lower) != last {
        CandidatesDiffer(path, j, k - 1, lower);
      }
      names := before + {last};
    }
  }

  lemma {:induction false} SubsetCount(a: set<string>, b: set<string>)
    requires a <= b
    ensures |a| <= |b|
  {
    if x :| x in a { SubsetCount(a - {x}, b - {x}); }
  }

  /** The places in the list of the documents other than the current one. */
  function Others(documents: seq<Document>, current: string): set<int> {
    set i | 0 <= i < |documents| && documents[i].id != current
  }

  lemma OneMoreOccupied(documents: seq<Document>, current: string, lower: Lower)
    requires |documents| > 0
    ensures var n := |documents| - 1;
            Occupied(documents, current, lower) <=
            Occupied(documents[..n], current, lower) + if documents[n].id != current then {LowerAll(documents[n].path, lower)} else {}
  {
    hide LowerAll;
    var n := |documents| - 1;
    var all := Occupied(documents[..n], current, lower) + if documents[n].id != current then {LowerAll(documents[n].path, lower)} else {};
    forall name | name in Occupied(documents, current, lower) ensures name in all {
      var i :| 0 <= i < |documents| && documents[i].id != current && name == LowerAll(documents[i].path, lower);
      if i < n { assert documents[..n][i] == documents[i]; }
    }
  }

  lemma OneMoreOther(documents: seq<Document>, current: string)
    requires |documents| > 0
    ensures var n := |documents| - 1;
            Others(documents, current) == Others(documents[..n], current) + (if documents[n].id != current then {n} else {})
            && n !in Others(documents[..n], current)
  {
  }

  lemma {:induction false} OccupiedCount(documents: seq<Document>, current: string, lower: Lower)
    ensures |Occupied(documents, current, lower)| <= |Others(documents, current)|
  {
    if |documents| > 0 {
      hide LowerAll, Occupied, Others;
      var n := |documents| - 1;
      OccupiedCount(documents[..n], current, lower);
      OneMoreOccupied(documents, current, lower);
      OneMoreOther(documents, current);
      SubsetCount(Occupied(documents, current, lower),
                  Occupied(documents[..n], current, lower) + if documents[n].id != current then {LowerAll(documents[n].path, lower)} else {});
    } else {
      assert Occupied(documents, current, lower) == {};
    }
  }

  /** With fewer than 9,998 other documents the chosen path is free ignoring case, and a path
      that was free is kept as it is. */
  lemma FewOthersLeaveAFreePath(documents: seq<Document>, path: string, current: string, lower: Lower, now: nat, chosen: string)
    requires KeepsDigits(lower) && Choice(Occupied(documents, current, lower), path, lower, now, chosen)
    requires |Others(documents, current)| < 9_998
    ensures forall i | 0 <= i < |documents| && documents[i].id != current ::
              LowerAll(documents[i].path, lower) != LowerAll(chosen, lower)
    ensures (chosen == path) <==> (LowerAll(path, lower) !in Occupied(documents, current, lower))
  {
    OccupiedCount(documents, current, lower);
    ChoiceIsFree(documents, path, current, lower, now, chosen);
  }

  /** The same counting names, so that documents sharing a name count once. */
  lemma ChoiceIsFree(documents: seq<Document>, path: string, current: string, lower: Lower, now: nat, chosen: string)
    requires KeepsDigits(lower) && Choice(Occupied(documents, current, lower), path, lower, now, chosen)
    requires |Occupied(documents, current, lower)| < 9_998
    ensures forall i | 0 <= i < |documents| && documents[i].id != current ::
              LowerAll(documents[i].path, lower) != LowerAll(chosen, lower)
    ensures (chosen == path) <==> (LowerAll(path, lower) !in Occupied(documents, current, lower))
  {
    var occupied := Occupied(documents, current, lower);
    if LowerAll(chosen, lower) in occupied {
      var names := OccupiedCandidates(occupied, path, 10_000, lower);
      SubsetCount(names, occupied);
    }
    assert forall i | 0 <= i < |documents| && documents[i].id != current :: LowerAll(documents[i].path, lower) in occupied;
  }

  // ---- a candidate stays in its folder and keeps its extension ----

  lemma {:induction false} LastDotMeaning(s: string)
    ensures var dot := LastDot(s);
            if dot == -1 then '.' !in s else s[dot] == '.' && '.' !in s[dot + 1..]
  {
    if |s| > 0 && s[|s| - 1] != '.' { LastDotMeaning(s[..|s| - 1]); }
  }

  lemma {:induction false} LastDotIs(s: string, dot: nat)
    requires dot < |s| && s[dot] == '.' && '.' !in s[dot + 1..]
    ensures LastDot(s) == dot
  {
    if dot < |s| - 1 {
      assert s[|s| - 1] == s[dot + 1..][|s| - dot - 2];
      LastDotIs(s[..|s| - 1], dot);
    }
  }

  ghost predicate IsExtension(extension: string) {
    |extension| >= 2 && extension[0] == '.' && '.' !in extension[1..]
  }

  lemma ExtensionShape(name: string)
    ensures IsExtension(NameExtension(name))
  {
    LastDotMeaning(name);
  }

  lemma ExtensionKept(stem: string, extension: string)
    requires |stem| > 0 && IsExtension(extension)
    ensures NameExtension(stem + extension) == extension
  {
    var name := stem + extension;
    assert name[|stem| + 1..] == extension[1..];
    LastDotIs(name, |stem|);
  }

  lemma NoSlashAround(stem: string, suffix: nat, extension: string)
    requires '/' !in stem && '/' !in extension
    ensures '/' !in stem + "-" + Digits(suffix) + extension
  {
    hide Digits;
    DigitsAreDigits(suffix);
  }

  lemma NoSlashInParts(name: string, suffix: nat)
    requires '/' !in name
    ensures '/' !in NameStem(name) + "-" + Digits(suffix) + NameExtension(name)
  {
    assert '/' !in NameExtension(name) && '/' !in NameStem(name);
    NoSlashAround(NameStem(name), suffix, NameExtension(name));
  }

  lemma SegmentsOfName(name: string)
    requires '/' !in name && name != ""
    ensures Segments(name) == [name]
  {
    SplitPlain(name);
    NonEmptyKeeps([name]);
  }

  lemma FirstSegment(path: string)
    ensures |path| > 0 && path[0] != '/' ==> |Segments(path)| > 0
  {
  }

  /** A path of slashes alone. */
  lemma {:induction false} SlashesOnly(path: string, name: string)
    requires Segments(path) == []
    ensures Segments(path + name) == Segments(name) && '.' !in path
  {
    if |path| == 0 {
      assert path + name == name;
    } else {
      FirstSegment(path);
      assert ([""] + Split(path[1..]))[1..] == Split(path[1..]);
      SlashesOnly(path[1..], name);
      assert (path + name)[1..] == path[1..] + name;
      assert ([""] + Split(path[1..] + name))[1..] == Split(path[1..] + name);
    }
  }

  lemma CandidateInFolder(folders: seq<string>, name: string)
    requires SlashFree(folders) && "" !in folders && '/' !in name && name != ""
    ensures Segments(JoinDocumentPath(Join(folders), name)) == folders + [name]
  {
    if |folders| == 0 {
      SegmentsOfName(name);
    } else {
      JoinIsNotBlank(folders);
      SplitConcat(Join(folders), name);
      SplitJoin(folders);
      NonEmptyConcat(folders, Split(name));
      NonEmptyKeeps(folders);
      SegmentsOfName(name);
    }
  }

  lemma JoinIsNotBlank(folders: seq<string>)
    requires |folders| > 0 && "" !in folders
    ensures Join(folders) != ""
  {
    assert folders[0] != "";
  }

  /** The candidate's last segment, after the same folders as the path's. */
  lemma CandidateSegments(path: string, suffix: nat)
    requires |Segments(path)| > 0
    ensures var parts, name := Segments(path), DocumentStem(path) + "-" + Digits(suffix) + DocumentExtension(path);
            Segments(Candidate(path, suffix)) == parts[..|parts| - 1] + [name]
  {
    hide NameStem, NameExtension, Digits;
    var parts := Segments(path);
    var folders := parts[..|parts| - 1];
    NonEmptyParts(Split(path));
    SplitIsSlashFree(path);
    NoSlashInParts(parts[|parts| - 1], suffix);
    assert SlashFree(folders) && "" !in folders;
    assert ParentPath(path) == Join(folders);
    CandidateInFolder(folders, DocumentStem(path) + "-" + Digits(suffix) + DocumentExtension(path));
  }

  lemma NoDotNoExtension(name: string)
    requires '.' !in name
    ensures NameExtension(name) == ".md" && NameStem(name) == if name == "" then "Untitled" else name
  {
    LastDotMeaning(name);
    var cut := |name| - 3;
    if cut >= 0 { assert name[cut] == name[cut..][0]; }
  }

  /** A blank path, or one of slashes alone, has no folders; neither has its candidate. */
  lemma CandidateOfBlank(path: string, suffix: nat) returns (stem: string)
    requires |Segments(path)| == 0
    ensures Segments(Candidate(path, suffix)) == [stem + "-" + Digits(suffix) + ".md"]
    ensures ParentPath(path) == "" && DocumentExtension(path) == ".md"
  {
    hide NameStem, NameExtension, Digits, Segments;
    SlashesOnly(path, "-" + Digits(suffix) + ".md");
    NoDotNoExtension(FileName(path));
    stem := if path == "" then "Untitled" else "";
    NoSlashAround(stem, suffix, ".md");
    SegmentsOfName(stem + "-" + Digits(suffix) + ".md");
    assert path != "" ==> path + "-" + Digits(suffix) + ".md" == path + ("-" + Digits(suffix) + ".md");
    assert "" + "-" + Digits(suffix) + ".md" == "-" + Digits(suffix) + ".md";
  }

  /** The last segment decides the extension, those before it the folder. */
  lemma FromSegments(path: string, folders: seq<string>, name: string)
    requires Segments(path) == folders + [name]
    ensures ParentPath(path) == (if |folders| == 0 then "" else Join(folders)) && FileName(path) == name
  {
    assert (folders + [name])[..|folders|] == folders;
  }

  /** Every candidate lies in the path's folder and has its extension. */
  lemma CandidateStays(path: string, suffix: nat)
    ensures ParentPath(Candidate(path, suffix)) == ParentPath(path)
    ensures DocumentExtension(Candidate(path, suffix)) == DocumentExtension(path)
  {
    hide Candidate, Segments, NameStem, NameExtension, Digits, ParentPath, FileName;
    var parts := Segments(path);
    var head, extension := DocumentStem(path) + "-" + Digits(suffix), DocumentExtension(path);
    ExtensionShape(FileName(path));
    ExtensionKept(head, extension);
    if |parts| > 0 {
      CandidateSegments(path, suffix);
      FromSegments(Candidate(path, suffix), parts[..|parts| - 1], head + extension);
      assert parts == parts[..|parts| - 1] + [parts[|parts| - 1]];
      FromSegments(path, parts[..|parts| - 1], parts[|parts| - 1]);
    } else {
      var stem := CandidateOfBlank(path, suffix);
      FromSegments(Candidate(path, suffix), [], stem + "-" + Digits(suffix) + ".md");
      ExtensionKept(stem + "-" + Digits(suffix), ".md");
    }
  }

  // ---- names in parts ----

  /** A name splits at a position if its last dot is there, with something on both sides. */
  ghost predicate SplitsAt(name: string, dot: int) {
    0 < dot < |name| - 1 && name[dot] == '.' && '.' !in name[dot + 1..]
  }

  lemma SplitName(name: string, dot: int)
    requires SplitsAt(name, dot)
    ensures NameStem(name) == name[..dot] && NameExtension(name) == name[dot..]
  {
    LastDotIs(name, dot);
  }

  /** A name that splits nowhere counts as a Markdown file's, and one that is nothing else as an
      untitled one. */
  lemma WholeName(name: string)
    requires forall dot :: !SplitsAt(name, dot)
    ensures NameExtension(name) == ".md" && NameStem(name) == if name == "" || name == ".md" then "Untitled" else name
  {
    LastDotMeaning(name);
    assert !SplitsAt(name, LastDot(name));
    var cut := |name| - 3;
    if cut >= 0 && name[cut..] == ".md" {
      assert name[cut] == name[cut..][0] && name[cut + 1..] == name[cut..][1..] == "md";
      assert !SplitsAt(name, cut);
      assert name == name[cut..];
    }
  }

  lemma SplitJoined(folders: seq<string>, name: string)
    requires SlashFree(folders) && "" !in folders && '/' !in name && name != ""
    ensures Segments(Join(folders + [name])) == folders + [name]
  {
    SplitJoin(folders + [name]);
    NonEmptyKeeps(folders + [name]);
  }

  /** The candidate for a document: the number goes between its stem and its extension. */
  lemma CandidateInserts(folders: seq<string>, stem: string, extension: string, suffix: nat)
    requires SlashFree(folders) && "" !in folders && '/' !in stem + extension && stem != "" && IsExtension(extension)
    ensures Candidate(Join(folders + [stem + extension]), suffix) == Join(folders + [stem + "-" + Digits(suffix) + extension])
  {
    hide Segments, NameStem, NameExtension, Digits, Join;
    var name, path := stem + extension, Join(folders + [stem + extension]);
    SplitJoined(folders, name);
    FromSegments(path, folders, name);
    assert SplitsAt(name, |stem|) by { assert name[|stem| + 1..] == extension[1..]; }
    SplitName(name, |stem|);
    assert name[..|stem|] == stem && name[|stem|..] == extension;
    JoinedTo(folders, stem + "-" + Digits(suffix) + extension);
  }

  lemma JoinedTo(folders: seq<string>, name: string)
    requires "" !in folders
    ensures JoinDocumentPath(if |folders| == 0 then "" else Join(folders), name) == Join(folders + [name])
  {
    if |folders| == 0 {
      assert folders + [name] == [name];
    } else {
      JoinSnoc(folders, name);
      JoinIsNotBlank(folders);
    }
  }

  function ReadDigits(s: string): int {
    if |s| == 0 then 0 else 10 * ReadDigits(s[..|s| - 1]) + (s[|s| - 1] as int - '0' as int)
  }

  /** The number is written in decimal, without leading zeros. */
  lemma {:induction false} DigitsRead(n: nat)
    ensures ReadDigits(Digits(n)) == n && (Digits(n)[0] == '0' ==> n == 0)
  {
    if n >= 10 {
      DigitsRead(n / 10);
      var s := Digits(n);
      assert s[..|s| - 1] == Digits(n / 10);
    } else {
      assert Digits(n)[..0] == "";
    }
  }
}
