/** Slash-separated paths as strings: trimming, splitting, joining and lexical cleaning. */
module Paths {
  // ---- trimming ----

  /** Which characters count as white space differs between the two languages of the program,
      so trimming takes the test as a parameter. */
  type Space = char -> bool

  /** White space as the client's string trimming sees it. */
  predicate JsSpace(c: char) {
    var n := c as int;
    9 <= n <= 13 || n == 32 || n == 0xA0 || n == 0x1680 || 0x2000 <= n <= 0x200A || n == 0x2028 || n == 0x2029
    || n == 0x202F || n == 0x205F || n == 0x3000 || n == 0xFEFF
  }

  function TrimLeft(s: string, ws: Space): string {
    if |s| > 0 && ws(s[0]) then TrimLeft(s[1..], ws) else s
  }

  function TrimRight(s: string, ws: Space): string {
    if |s| > 0 && ws(s[|s| - 1]) then TrimRight(s[..|s| - 1], ws) else s
  }

  function Trim(s: string, ws: Space): string {
    TrimRight(TrimLeft(s, ws), ws)
  }

  predicate Trimmed(s: string, ws: Space) {
    |s| > 0 ==> !ws(s[0]) && !ws(s[|s| - 1])
  }

  lemma {:induction false} TrimLeftCuts(s: string, ws: Space)
    ensures |TrimLeft(s, ws)| <= |s| && TrimLeft(s, ws) == s[|s| - |TrimLeft(s, ws)|..]
    ensures |TrimLeft(s, ws)| > 0 ==> !ws(TrimLeft(s, ws)[0])
    ensures forall k | 0 <= k < |s| - |TrimLeft(s, ws)| :: ws(s[k])
    ensures |s| > 0 && ws(s[0]) <==> |TrimLeft(s, ws)| < |s|
  {
    if |s| > 0 && ws(s[0]) { TrimLeftCuts(s[1..], ws); }
  }

  lemma {:induction false} TrimRightCuts(s: string, ws: Space)
    ensures |TrimRight(s, ws)| <= |s| && TrimRight(s, ws) == s[..|TrimRight(s, ws)|]
    ensures |TrimRight(s, ws)| > 0 ==> !ws(TrimRight(s, ws)[|TrimRight(s, ws)| - 1])
    ensures |s| > 0 && ws(s[|s| - 1]) <==> |TrimRight(s, ws)| < |s|
    decreases |s|
  {
    if |s| > 0 && ws(s[|s| - 1]) { TrimRightCuts(s[..|s| - 1], ws); }
  }

  /** Trimming yields trimmed text, keeps text that already is, and shortens all other text. */
  lemma TrimProperties(s: string, ws: Space)
    ensures Trimmed(Trim(s, ws), ws)
    ensures Trimmed(s, ws) ==> Trim(s, ws) == s
    ensures !Trimmed(s, ws) ==> |Trim(s, ws)| < |s|
  {
    hide TrimLeft, TrimRight;
    TrimLeftCuts(s, ws);
    TrimRightCuts(TrimLeft(s, ws), ws);
  }

  lemma TrimCharacters(s: string, ws: Space, c: char)
    ensures c in Trim(s, ws) ==> c in s
  {
    hide TrimLeft, TrimRight;
    TrimLeftCuts(s, ws);
    TrimRightCuts(TrimLeft(s, ws), ws);
  }

  // ---- splitting and joining ----

  function Split(s: string): (parts: seq<string>)
    ensures |parts| >= 1
  {
    if |s| == 0 then [""]
    else
      var rest := Split(s[1..]);
      if s[0] == '/' then [""] + rest else [[s[0]] + rest[0]] + rest[1..]
  }

  function Join(parts: seq<string>): string {
    if |parts| == 0 then ""
    else if |parts| == 1 then parts[0]
    else parts[0] + "/" + Join(parts[1..])
  }

  predicate SlashFree(parts: seq<string>) {
    forall i | 0 <= i < |parts| :: '/' !in parts[i]
  }

  lemma {:induction false} SplitIsSlashFree(s: string)
    ensures SlashFree(Split(s))
  {
    if |s| > 0 { SplitIsSlashFree(s[1..]); }
  }

  lemma {:induction false} JoinSplit(s: string)
    ensures Join(Split(s)) == s
  {
    if |s| > 0 {
      JoinSplit(s[1..]);
      var rest := Split(s[1..]);
      if s[0] == '/' {
        assert Split(s)[1..] == rest;
        assert s == [s[0]] + s[1..];
      } else {
        assert Split(s)[1..] == rest[1..];
        assert s == [s[0]] + s[1..];
      }
    }
  }

  lemma {:induction false} SplitPlain(part: string)
    requires '/' !in part
    ensures Split(part) == [part]
  {
    if |part| > 0 {
      SplitPlain(part[1..]);
      assert part == [part[0]] + part[1..];
    }
  }

  lemma {:induction false} SplitAtSlash(part: string, rest: string)
    requires '/' !in part
    ensures Split(part + "/" + rest) == [part] + Split(rest)
  {
    var s := part + "/" + rest;
    if |part| == 0 {
      assert s[1..] == rest;
    } else {
      SplitAtSlash(part[1..], rest);
      assert s[1..] == part[1..] + "/" + rest;
      assert part == [part[0]] + part[1..];
    }
  }

  function NonEmpty(parts: seq<string>): seq<string> {
    if |parts| == 0 then []
    else if parts[0] == "" then NonEmpty(parts[1..])
    else [parts[0]] + NonEmpty(parts[1..])
  }

  /** The non-empty parts of a path; the last one names the document. */
  function Segments(path: string): seq<string> {
    NonEmpty(Split(path))
  }

  lemma {:induction false} NonEmptyConcat(a: seq<string>, b: seq<string>)
    ensures NonEmpty(a + b) == NonEmpty(a) + NonEmpty(b)
  {
    if |a| == 0 {
      assert a + b == b;
    } else {
      assert (a + b)[1..] == a[1..] + b;
      NonEmptyConcat(a[1..], b);
    }
  }

  lemma {:induction false} NonEmptyParts(parts: seq<string>)
    ensures forall i | 0 <= i < |NonEmpty(parts)| :: NonEmpty(parts)[i] != "" && NonEmpty(parts)[i] in parts
  {
    if |parts| > 0 { NonEmptyParts(parts[1..]); }
  }

  lemma {:induction false} NonEmptyKeeps(parts: seq<string>)
    requires "" !in parts
    ensures NonEmpty(parts) == parts
  {
    if |parts| > 0 { NonEmptyKeeps(parts[1..]); }
  }

  lemma {:induction false} SplitJoin(parts: seq<string>)
    requires |parts| >= 1 && SlashFree(parts)
    ensures Split(Join(parts)) == parts
  {
    if |parts| == 1 {
      SplitPlain(parts[0]);
    } else {
      SplitJoin(parts[1..]);
      SplitAtSlash(parts[0], Join(parts[1..]));
      assert parts == [parts[0]] + parts[1..];
    }
  }

  lemma {:induction false} JoinConcat(a: seq<string>, b: seq<string>)
    requires |a| >= 1 && |b| >= 1
    ensures Join(a + b) == Join(a) + "/" + Join(b)
  {
    if |a| == 1 {
      assert (a + b)[1..] == b;
    } else {
      assert (a + b)[1..] == a[1..] + b;
      JoinConcat(a[1..], b);
    }
  }

  lemma SplitConcat(a: string, b: string)
    ensures Split(a + "/" + b) == Split(a) + Split(b)
  {
    hide Split, Join;
    JoinSplit(a);
    JoinSplit(b);
    JoinConcat(Split(a), Split(b));
    SplitIsSlashFree(a);
    SplitIsSlashFree(b);
    SplitJoin(Split(a) + Split(b));
  }

  /** Joining adds one slash between parts and nothing else. */
  function Weight(parts: seq<string>): nat {
    if |parts| == 0 then 0 else |parts[0]| + 1 + Weight(parts[1..])
  }

  lemma {:induction false} JoinWeight(parts: seq<string>)
    ensures |parts| > 0 ==> |Join(parts)| + 1 == Weight(parts)
  {
    if |parts| > 1 { JoinWeight(parts[1..]); }
  }

  lemma {:induction false} WeightSnoc(parts: seq<string>, part: string)
    ensures Weight(parts + [part]) == Weight(parts) + |part| + 1
  {
    if |parts| == 0 {
      assert [part][1..] == [];
    } else {
      assert (parts + [part])[1..] == parts[1..] + [part];
      WeightSnoc(parts[1..], part);
    }
  }

  lemma {:induction false} JoinSnoc(parts: seq<string>, part: string)
    requires |parts| >= 1
    ensures Join(parts + [part]) == Join(parts) + "/" + part
  {
    if |parts| == 1 {
      assert (parts + [part])[1..] == [part];
    } else {
      assert (parts + [part])[1..] == parts[1..] + [part];
      JoinSnoc(parts[1..], part);
    }
  }

  // ---- lexical cleaning ----

  /** Walking the parts with a stack: empty parts and "." vanish, ".." takes one part back.
      A ".." with nothing to take back is kept if `keepUp`, and vanishes otherwise. */
  function CleanParts(parts: seq<string>, stack: seq<string>, keepUp: bool): seq<string> {
    if |parts| == 0 then stack
    else CleanParts(parts[1..], CleanStep(parts[0], stack, keepUp), keepUp)
  }

  function CleanStep(part: string, stack: seq<string>, keepUp: bool): seq<string> {
    if part == "" || part == "." then stack
    else if part != ".." then stack + [part]
    else if |stack| > 0 && stack[|stack| - 1] != ".." then stack[..|stack| - 1]
    else if keepUp then stack + [part]
    else stack
  }

  /** A part that cleaning never touches. */
  predicate Plain(part: string) {
    part != "" && part != "." && part != ".." && '/' !in part
  }

  predicate AllPlain(parts: seq<string>) {
    forall i | 0 <= i < |parts| :: Plain(parts[i])
  }

  lemma {:induction false} CleanKeepsPlain(parts: seq<string>, stack: seq<string>, keepUp: bool)
    requires AllPlain(parts)
    ensures CleanParts(parts, stack, keepUp) == stack + parts
    decreases |parts|
  {
    if |parts| > 0 {
      CleanKeepsPlain(parts[1..], stack + [parts[0]], keepUp);
      assert stack + [parts[0]] + parts[1..] == stack + parts;
    }
  }

  lemma {:induction false} CleanShrinks(parts: seq<string>, stack: seq<string>, keepUp: bool)
    ensures Weight(CleanParts(parts, stack, keepUp)) <= Weight(stack) + Weight(parts)
    decreases |parts|
  {
    if |parts| > 0 {
      var next := CleanStep(parts[0], stack, keepUp);
      CleanShrinks(parts[1..], next, keepUp);
      if next == stack + [parts[0]] {
        WeightSnoc(stack, parts[0]);
      } else if |stack| > 0 && next == stack[..|stack| - 1] {
        assert stack == next + [stack[|stack| - 1]];
        WeightSnoc(next, stack[|stack| - 1]);
      }
    }
  }

  lemma {:induction false} CleanConcat(a: seq<string>, b: seq<string>, stack: seq<string>, keepUp: bool)
    ensures CleanParts(a + b, stack, keepUp) == CleanParts(b, CleanParts(a, stack, keepUp), keepUp)
    decreases |a|
  {
    if |a| == 0 {
      assert a + b == b;
    } else {
      assert (a + b)[1..] == a[1..] + b;
      CleanConcat(a[1..], b, CleanStep(a[0], stack, keepUp), keepUp);
    }
  }

  /** The rules of cleaning, at any place between any parts: empty parts and "." can be left out, and
      so can a part together with the ".." right after it. */
  lemma CleanRules(a: seq<string>, part: string, b: seq<string>, keepUp: bool)
    ensures part == "" || part == "." ==> CleanParts(a + [part] + b, [], keepUp) == CleanParts(a + b, [], keepUp)
    ensures part !in {"", ".", ".."} ==> CleanParts(a + [part, ".."] + b, [], keepUp) == CleanParts(a + b, [], keepUp)
  {
    hide CleanParts;
    var stack := CleanParts(a, [], keepUp);
    CleanConcat(a, b, [], keepUp);
    CleanConcat(a, [part] + b, [], keepUp);
    CleanConcat(a, [part, ".."] + b, [], keepUp);
    assert a + [part] + b == a + ([part] + b) && a + [part, ".."] + b == a + ([part, ".."] + b);
    CleanFirst([part] + b, stack, keepUp);
    CleanFirst([part, ".."] + b, stack, keepUp);
    CleanFirst([".."] + b, stack + [part], keepUp);
    assert ([part] + b)[1..] == b && ([part, ".."] + b)[1..] == [".."] + b && ([".."] + b)[1..] == b;
    assert (stack + [part])[..|stack|] == stack;
  }

  lemma CleanFirst(parts: seq<string>, stack: seq<string>, keepUp: bool)
    requires |parts| > 0
    ensures CleanParts(parts, stack, keepUp) == CleanParts(parts[1..], CleanStep(parts[0], stack, keepUp), keepUp)
  {
  }

  /** Where the rules lead: plain parts stay, after as many ".." as there were to spare if those are
      kept, and after none otherwise. */
  lemma {:induction false} CleanEnds(ups: nat, plain: seq<string>, keepUp: bool)
    requires AllPlain(plain)
    ensures CleanParts(seq(ups, _ => "..") + plain, [], keepUp) == (if keepUp then seq(ups, _ => "..") else []) + plain
  {
    var all := seq(ups, _ => "..");
    CleanConcat(all, plain, [], keepUp);
    CleanUps(ups, [], keepUp);
    CleanKeepsPlain(plain, CleanParts(all, [], keepUp), keepUp);
    assert [] + all == all;
  }

  lemma {:induction false} CleanUps(ups: nat, stack: seq<string>, keepUp: bool)
    requires forall i | 0 <= i < |stack| :: stack[i] == ".."
    requires !keepUp ==> stack == []
    ensures CleanParts(seq(ups, _ => ".."), stack, keepUp) == if keepUp then stack + seq(ups, _ => "..") else []
    decreases ups
  {
    var all := seq(ups, _ => "..");
    if ups > 0 {
      var rest := seq(ups - 1, _ => "..");
      assert all[1..] == rest && all == [".."] + rest;
      CleanUps(ups - 1, if keepUp then stack + [".."] else [], keepUp);
      assert stack + [".."] + rest == stack + all;
    } else {
      assert all == [] && stack + all == stack;
    }
  }

  /** No part stands before a "..", other than another one. */
  ghost predicate UpsFirst(parts: seq<string>) {
    forall i, j | 0 <= i < j < |parts| && parts[j] == ".." :: parts[i] == ".."
  }

  lemma {:induction false} CleanUpsFirst(parts: seq<string>, stack: seq<string>, keepUp: bool)
    requires UpsFirst(stack)
    ensures UpsFirst(CleanParts(parts, stack, keepUp))
    decreases |parts|
  {
    if |parts| > 0 { CleanUpsFirst(parts[1..], CleanStep(parts[0], stack, keepUp), keepUp); }
  }

  ghost predicate StackOf(parts: seq<string>, keepUp: bool) {
    forall i | 0 <= i < |parts| :: parts[i] != "" && parts[i] != "." && '/' !in parts[i] && (!keepUp ==> parts[i] != "..")
  }

  lemma {:induction false} CleanResult(parts: seq<string>, stack: seq<string>, keepUp: bool)
    requires SlashFree(parts) && StackOf(stack, keepUp)
    ensures StackOf(CleanParts(parts, stack, keepUp), keepUp)
    decreases |parts|
  {
    if |parts| > 0 {
      CleanResult(parts[1..], CleanStep(parts[0], stack, keepUp), keepUp);
    }
  }

  /** Cleaning only rearranges text that was there. */
  lemma {:induction false} CleanIntroducesNothing(parts: seq<string>, stack: seq<string>, keepUp: bool)
    ensures forall i | 0 <= i < |CleanParts(parts, stack, keepUp)| ::
              CleanParts(parts, stack, keepUp)[i] in stack || CleanParts(parts, stack, keepUp)[i] in parts
    decreases |parts|
  {
    if |parts| > 0 {
      CleanIntroducesNothing(parts[1..], CleanStep(parts[0], stack, keepUp), keepUp);
    }
  }

  lemma {:induction false} JoinCharacters(parts: seq<string>, c: char)
    requires c != '/' && c in Join(parts)
    ensures exists i :: 0 <= i < |parts| && c in parts[i]
  {
    if |parts| == 1 {
      assert c in parts[0];
    } else {
      if c in parts[0] {
      } else {
        assert c in Join(parts[1..]);
        JoinCharacters(parts[1..], c);
        var i :| 0 <= i < |parts[1..]| && c in parts[1..][i];
        assert c in parts[i + 1];
      }
    }
  }

  lemma {:induction false} JoinContains(parts: seq<string>, part: string, c: char)
    requires part in parts && c in part
    ensures c in Join(parts)
    decreases |parts|
  {
    if |parts| > 1 && part != parts[0] {
      JoinContains(parts[1..], part, c);
    }
  }

  /** Drops the slashes at the end. */
  function StripSlashes(url: string): string {
    if |url| > 0 && url[|url| - 1] == '/' then StripSlashes(url[..|url| - 1]) else url
  }

  /** Backslashes are read as slashes. */
  function Slashes(s: string): (r: string)
    ensures |r| == |s| && forall i | 0 <= i < |s| :: r[i] == (if s[i] == '\\' then '/' else s[i])
  {
    seq(|s|, i requires 0 <= i < |s| => if s[i] == '\\' then '/' else s[i])
  }

  lemma SlashesFree(s: string)
    ensures '\\' !in Slashes(s)
    ensures '\\' !in s ==> Slashes(s) == s
  {
  }
}
