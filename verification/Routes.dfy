/** The client's route printer and parser. */
module Routes {
  import opened Results
  import opened Paths
  import opened PercentEncoding

  datatype View = Home | Document(documentId: string)

  datatype Route =
    | Root
    | Login
    | Register
    | VerifyEmail(token: string)
    | ForgotPassword
    | ResetPassword(token: string)
    | Invite(token: string)
    | NewWorkspace
    | Workspace(slug: string, view: View)
    | DesktopConnect(callback: string)
    | DesktopConnectComplete
    | NotFound

  // ---- paths compared as a whole ----

  function RootPath(): string { "/" }

  function LoginPath(): string { "/login" }

  function RegisterPath(): string { "/register" }

  function VerifyEmailPath(): string { "/account/verify-email" }

  function ForgotPasswordPath(): string { "/account/forgot-password" }

  function ResetPasswordPath(): string { "/account/reset-password" }

  function NewWorkspacePath(): string { "/new" }

  function DesktopConnectCompletePath(): string { "/desktop/connect/complete" }

  function DesktopConnectPath(): string { "/desktop/connect" }

  // ---- printing ----

  function RoutePath(route: Route): string {
    match route
    case Root => RootPath()
    case Login => LoginPath()
    case Register => RegisterPath()
    case VerifyEmail(token) => VerifyEmailPath() + "?" + ("token" + "=" + EncodeComponent(token))
    case ForgotPassword => ForgotPasswordPath()
    case ResetPassword(token) => ResetPasswordPath() + "?" + ("token" + "=" + EncodeComponent(token))
    case Invite(token) => "/invite/" + EncodeComponent(token)
    case NewWorkspace => NewWorkspacePath()
    case Workspace(slug, Home) => "/w/" + EncodeComponent(slug)
    case Workspace(slug, Document(documentId)) => "/w/" + EncodeComponent(slug) + "/d/" + EncodeComponent(documentId)
    case DesktopConnect(callback) => DesktopConnectPath() + "?" + ("callback" + "=" + EncodeComponent(callback))
    case DesktopConnectComplete => DesktopConnectCompletePath()
    case NotFound => "/404"
  }

  // ---- parsing ----

  /** The text before the first mark; all of it without one. */
  function Until(s: string, mark: char): string {
    if |s| == 0 || s[0] == mark then "" else [s[0]] + Until(s[1..], mark)
  }

  /** The text after the first mark; nothing without one. */
  function Beyond(s: string, mark: char): (rest: string)
    ensures |rest| <= |s| && (|s| > 0 ==> |rest| < |s|)
  {
    if |s| == 0 then "" else if s[0] == mark then s[1..] else Beyond(s[1..], mark)
  }

  function NormalizePathname(pathname: string): string {
    var path := Until(Until(pathname, '?'), '#');
    if path == "" || path == "/" then "/"
    else
      var stripped := StripSlashes(path);
      if stripped == "" then "/" else stripped
  }

  /** The first value of the parameter in a query string. */
  function Param(query: string, name: string): Option<string>
    decreases |query|
  {
    if |query| == 0 then None
    else
      var pair := Until(query, '&');
      if pair != "" && FormDecode(Until(pair, '=')) == name then Some(FormDecode(Beyond(pair, '=')))
      else Param(Beyond(query, '&'), name)
  }

  function ParamOrBlank(query: string, name: string): string {
    var value := Param(query, name);
    if value.Some? then value.value else ""
  }

  function DecodeSegment(segment: string): string {
    var decoded := DecodeComponent(segment);
    if decoded.Some? then decoded.value else ""
  }

  function ParseSegments(segments: seq<string>): Route {
    if |segments| == 2 && segments[0] == "invite" then
      var token := DecodeSegment(segments[1]);
      if token != "" then Invite(token) else NotFound
    else if |segments| < 2 || segments[0] != "w" then NotFound
    else
      var slug := DecodeSegment(segments[1]);
      if slug == "" then NotFound
      else if |segments| == 2 then Workspace(slug, Home)
      else if |segments| == 4 && segments[2] == "d" then
        var documentId := DecodeSegment(segments[3]);
        if documentId != "" then Workspace(slug, Document(documentId)) else NotFound
      else NotFound
  }

  function ParsePath(path: string, query: string): Route {
    if path == RootPath() then Root
    else if path == LoginPath() then Login
    else if path == RegisterPath() then Register
    else if path == VerifyEmailPath() then VerifyEmail(ParamOrBlank(query, "token"))
    else if path == ForgotPasswordPath() then ForgotPassword
    else if path == ResetPasswordPath() then ResetPassword(ParamOrBlank(query, "token"))
    else if path == NewWorkspacePath() then NewWorkspace
    else if path == DesktopConnectCompletePath() then DesktopConnectComplete
    else if path == DesktopConnectPath() then DesktopConnect(ParamOrBlank(query, "callback"))
    else ParseSegments(NonEmpty(Split(path)))
  }

  function ParseRoute(pathname: string): Route {
    ParsePath(NormalizePathname(Until(pathname, '?')), Until(Beyond(pathname, '?'), '?'))
  }

  // ---- pieces of the round trip ----

  lemma {:induction false} UntilMark(s: string, mark: char, rest: string)
    requires mark !in s
    ensures Until(s, mark) == s && Beyond(s, mark) == ""
    ensures Until(s + [mark] + rest, mark) == s && Beyond(s + [mark] + rest, mark) == rest
  {
    var all := s + [mark] + rest;
    if |s| == 0 {
      assert all[1..] == rest;
    } else {
      UntilMark(s[1..], mark, rest);
      assert all[1..] == s[1..] + [mark] + rest;
      assert s == [s[0]] + s[1..];
    }
  }

  /** Text without marks, and not ending in a slash. */
  ghost predicate Bare(path: string) {
    '?' !in path && '#' !in path && |path| > 0 && path[0] == '/' && (path == "/" || path[|path| - 1] != '/')
  }

  lemma NormalizeBare(path: string)
    requires Bare(path)
    ensures NormalizePathname(path) == path
  {
    UntilMark(path, '?', "");
    UntilMark(path, '#', "");
  }

  lemma ParseBare(path: string)
    requires Bare(path)
    ensures ParseRoute(path) == ParsePath(path, "")
  {
    hide ParsePath, NormalizePathname;
    UntilMark(path, '?', "");
    NormalizeBare(path);
  }

  lemma InertHasNoMarks(s: string)
    requires Inert(s)
    ensures '?' !in s && '#' !in s && '/' !in s && '&' !in s && '=' !in s
  {
  }

  /** A path with one query parameter. */
  lemma ParseWithParam(path: string, name: string, value: string)
    requires Bare(path) && |name| > 0 && forall i | 0 <= i < |name| :: Unreserved(name[i])
    ensures ParseRoute(path + "?" + (name + "=" + EncodeComponent(value))) == ParsePath(path, name + "=" + EncodeComponent(value))
    ensures ParamOrBlank(name + "=" + EncodeComponent(value), name) == value
  {
    hide ParsePath, NormalizePathname, EncodeComponent, Unreserved, FormDecode;
    var encoded := EncodeComponent(value);
    EncodedIsInert(value);
    InertHasNoMarks(encoded);
    InertHasNoMarks(name);
    var query := name + "=" + encoded;
    UntilMark(path, '?', query);
    UntilMark(query, '?', "");
    NormalizeBare(path);
    UntilMark(query, '&', "");
    UntilMark(name, '=', encoded);
    UnreservedIsItself(name);
    FormRoundTrip(name);
    FormRoundTrip(value);
  }

  // ---- the whole paths differ in length, and none goes on like an invite or a workspace ----

  ghost predicate Shape(path: string, length: nat) {
    Bare(path) && |path| == length && (length > 1 ==> !Segmented(path[1]))
  }

  /** How the paths that are read segment by segment, and the one of no route, go on after the slash. */
  predicate Segmented(c: char) {
    c == 'i' || c == 'w' || c == '4'
  }

  lemma RootShape()
    ensures Shape(RootPath(), 1)
  {
  }

  lemma LoginShape()
    ensures Shape(LoginPath(), 6)
  {
  }

  lemma RegisterShape()
    ensures Shape(RegisterPath(), 9)
  {
  }

  lemma VerifyEmailShape()
    ensures Shape(VerifyEmailPath(), 21)
  {
  }

  lemma ForgotPasswordShape()
    ensures Shape(ForgotPasswordPath(), 24)
  {
  }

  lemma ResetPasswordShape()
    ensures Shape(ResetPasswordPath(), 23)
  {
  }

  lemma NewWorkspaceShape()
    ensures Shape(NewWorkspacePath(), 4)
  {
  }

  lemma DesktopConnectCompleteShape()
    ensures Shape(DesktopConnectCompletePath(), 25)
  {
  }

  lemma DesktopConnectShape()
    ensures Shape(DesktopConnectPath(), 16)
  {
  }

  lemma Shapes()
    ensures Shape(RootPath(), 1)
    ensures Shape(LoginPath(), 6)
    ensures Shape(RegisterPath(), 9)
    ensures Shape(VerifyEmailPath(), 21)
    ensures Shape(ForgotPasswordPath(), 24)
    ensures Shape(ResetPasswordPath(), 23)
    ensures Shape(NewWorkspacePath(), 4)
    ensures Shape(DesktopConnectCompletePath(), 25)
    ensures Shape(DesktopConnectPath(), 16)
  {
    hide Shape, RootPath, LoginPath, RegisterPath, VerifyEmailPath, ForgotPasswordPath, ResetPasswordPath, NewWorkspacePath, DesktopConnectCompletePath, DesktopConnectPath;
    RootShape();
    LoginShape();
    RegisterShape();
    VerifyEmailShape();
    ForgotPasswordShape();
    ResetPasswordShape();
    NewWorkspaceShape();
    DesktopConnectCompleteShape();
    DesktopConnectShape();
  }

  lemma NotWhole(path: string, query: string)
    requires |path| > 1 && Segmented(path[1])
    ensures ParsePath(path, query) == ParseSegments(NonEmpty(Split(path)))
  {
    hide Bare, Segmented, ParseSegments, NonEmpty, Split, ParamOrBlank, RootPath, LoginPath, RegisterPath, VerifyEmailPath, ForgotPasswordPath, ResetPasswordPath, NewWorkspacePath, DesktopConnectCompletePath, DesktopConnectPath;
    Shapes();
    assert path != RootPath() && path != LoginPath() && path != RegisterPath() && path != VerifyEmailPath() && path != ForgotPasswordPath();
    assert path != ResetPasswordPath() && path != NewWorkspacePath() && path != DesktopConnectCompletePath() && path != DesktopConnectPath();
  }

  lemma SegmentsAfterSlash(path: string)
    ensures NonEmpty(Split("/" + path)) == NonEmpty(Split(path))
  {
    assert ("/" + path)[1..] == path;
    assert ([""] + Split(path))[1..] == Split(path);
  }

  lemma SegmentThenMore(part: string, rest: string)
    requires '/' !in part && part != ""
    ensures NonEmpty(Split(part + "/" + rest)) == [part] + NonEmpty(Split(rest))
  {
    SplitAtSlash(part, rest);
    assert ([part] + Split(rest))[1..] == Split(rest);
  }

  lemma LastSegment(part: string)
    requires '/' !in part
    ensures NonEmpty(Split(part)) == if part == "" then [] else [part]
  {
    SplitPlain(part);
    assert [part][1..] == [];
  }

  lemma DecodeEncodedSegment(s: string)
    ensures DecodeSegment(EncodeComponent(s)) == s
  {
    ComponentRoundTrip(s);
  }

  // ---- one lemma per kind of printed path ----

  lemma WholePaths()
    ensures ParseRoute(RoutePath(Root)) == Root && ParseRoute(RoutePath(Login)) == Login
    ensures ParseRoute(RoutePath(Register)) == Register && ParseRoute(RoutePath(ForgotPassword)) == ForgotPassword
    ensures ParseRoute(RoutePath(NewWorkspace)) == NewWorkspace
    ensures ParseRoute(RoutePath(DesktopConnectComplete)) == DesktopConnectComplete
  {
    hide Bare, ParseRoute, RootPath, LoginPath, RegisterPath, VerifyEmailPath, ForgotPasswordPath, ResetPasswordPath, NewWorkspacePath, DesktopConnectCompletePath, DesktopConnectPath;
    Shapes();
    ParseBare(RootPath());
    ParseBare(LoginPath());
    ParseBare(RegisterPath());
    ParseBare(ForgotPasswordPath());
    ParseBare(NewWorkspacePath());
    ParseBare(DesktopConnectCompletePath());
  }

  lemma QueryPaths(value: string)
    ensures ParseRoute(RoutePath(VerifyEmail(value))) == VerifyEmail(value)
    ensures ParseRoute(RoutePath(ResetPassword(value))) == ResetPassword(value)
    ensures ParseRoute(RoutePath(DesktopConnect(value))) == DesktopConnect(value)
  {
    hide Bare, EncodeComponent, ParamOrBlank, ParseRoute, RootPath, LoginPath, RegisterPath, VerifyEmailPath, ForgotPasswordPath, ResetPasswordPath, NewWorkspacePath, DesktopConnectCompletePath, DesktopConnectPath;
    Shapes();
    ParseWithParam(VerifyEmailPath(), "token", value);
    ParseWithParam(ResetPasswordPath(), "token", value);
    ParseWithParam(DesktopConnectPath(), "callback", value);
  }

  /** A printed path with segments, and no trailing slash, is read segment by segment. */
  lemma ParseBareSegments(path: string)
    requires Bare("/" + path) && |path| > 0 && Segmented(path[0])
    ensures ParseRoute("/" + path) == ParseSegments(NonEmpty(Split(path)))
  {
    hide ParsePath, ParseSegments, Segmented, Bare, ParseRoute, NonEmpty, Split;
    ParseBare("/" + path);
    NotWhole("/" + path, "");
    SegmentsAfterSlash(path);
  }

  lemma NotFoundPath()
    ensures ParseRoute(RoutePath(NotFound)) == NotFound
  {
    hide ParseRoute, Split, NonEmpty;
    assert "/404" == "/" + "404";
    ParseBareSegments("404");
    LastSegment("404");
  }

  /** A slash at the end changes nothing. */
  lemma ParseTrailingSlash(path: string)
    requires Bare(path) && path != "/"
    ensures ParseRoute(path + "/") == ParseRoute(path)
  {
    hide ParsePath;
    ParseBare(path);
    var slashed := path + "/";
    UntilMark(slashed, '?', "");
    UntilMark(slashed, '#', "");
    assert slashed[..|slashed| - 1] == path;
    assert StripSlashes(slashed) == StripSlashes(path) == path;
    assert NormalizePathname(slashed) == path;
  }

  function Part(encoded: string): seq<string> {
    if encoded == "" then [] else [encoded]
  }

  /** A printed path of two parts, the second possibly blank. */
  lemma TwoPartsRead(head: string, encoded: string)
    requires |head| > 0 && Segmented(head[0]) && '/' !in head && '?' !in head && '#' !in head
    requires '/' !in encoded && '?' !in encoded && '#' !in encoded
    ensures ParseRoute("/" + head + "/" + encoded) == ParseSegments([head] + Part(encoded))
  {
    hide ParseRoute, ParseSegments, Split, NonEmpty, Segmented;
    if encoded == "" {
      assert "/" + head + "/" + encoded == ("/" + head) + "/";
      ParseTrailingSlash("/" + head);
      ParseBareSegments(head);
      LastSegment(head);
      assert [head] + [] == [head];
    } else {
      assert "/" + head + "/" + encoded == "/" + (head + "/" + encoded);
      ParseBareSegments(head + "/" + encoded);
      SegmentThenMore(head, encoded);
      LastSegment(encoded);
    }
  }

  /** Encoded text as a segment: blank only if the text is, and read back as the text. */
  lemma EncodedSegment(s: string)
    ensures var encoded := EncodeComponent(s);
            '/' !in encoded && '?' !in encoded && '#' !in encoded && (encoded == "" <==> s == "") && DecodeSegment(encoded) == s
  {
    hide EncodeComponent, Inert;
    EncodedIsInert(s);
    InertHasNoMarks(EncodeComponent(s));
    ComponentRoundTrip(s);
  }

  lemma InvitePath(token: string)
    ensures ParseRoute(RoutePath(Invite(token))) == if token == "" then NotFound else Invite(token)
  {
    hide ParseRoute, EncodeComponent, DecodeSegment;
    var encoded := EncodeComponent(token);
    EncodedSegment(token);
    assert "/invite/" + encoded == "/" + "invite" + "/" + encoded;
    TwoPartsRead("invite", encoded);
  }

  /** The segments of a workspace path, after the printed slug and document id. */
  lemma WorkspaceSegments(slug: string, rest: string)
    requires '/' !in slug
    ensures NonEmpty(Split("w" + "/" + (slug + "/" + rest))) ==
            ["w"] + Part(slug) + NonEmpty(Split(rest))
  {
    hide Split, NonEmpty;
    SegmentThenMore("w", slug + "/" + rest);
    if slug == "" {
      assert slug + "/" + rest == "/" + rest;
      SegmentsAfterSlash(rest);
    } else {
      SegmentThenMore(slug, rest);
    }
  }

  lemma HomePath(slug: string)
    ensures ParseRoute(RoutePath(Workspace(slug, Home))) == if slug == "" then NotFound else Workspace(slug, Home)
  {
    hide ParseRoute, EncodeComponent, DecodeSegment;
    var encoded := EncodeComponent(slug);
    EncodedSegment(slug);
    assert "/w/" + encoded == "/" + "w" + "/" + encoded;
    TwoPartsRead("w", encoded);
  }

  /** What a printed document path is read as, blank slugs and ids included. */
  lemma DocumentPath(slug: string, documentId: string)
    ensures ParseRoute(RoutePath(Workspace(slug, Document(documentId)))) ==
            if slug != "" && documentId != "" then Workspace(slug, Document(documentId))
            else if slug == "" && documentId == "" then Workspace("d", Home)
            else NotFound
  {
    hide ParseRoute, EncodeComponent, DecodeSegment;
    var first, second := EncodeComponent(slug), EncodeComponent(documentId);
    EncodedSegment(slug);
    EncodedSegment(documentId);
    DocumentPathRead(first, second);
    LetterSegment();
  }

  lemma LetterSegment()
    ensures DecodeSegment("d") == "d"
  {
    UnreservedIsItself("d");
    DecodeEncodedSegment("d");
  }

  lemma DocumentPathRead(first: string, second: string)
    requires '/' !in first && '?' !in first && '#' !in first && '/' !in second && '?' !in second && '#' !in second
    ensures ParseRoute("/w/" + first + "/d/" + second) ==
            ParseSegments(["w"] + Part(first) + ["d"] + Part(second))
  {
    hide ParseRoute, ParseSegments, Split, NonEmpty;
    if second == "" {
      var path := "w" + "/" + (first + "/" + "d");
      assert "/w/" + first + "/d/" + second == "/" + path + "/";
      ParseTrailingSlash("/" + path);
      ParseBareSegments(path);
      WorkspaceSegments(first, "d");
      LastSegment("d");
      assert ["w"] + Part(first) + ["d"] + [] == ["w"] + Part(first) + ["d"];
    } else {
      var path := "w" + "/" + (first + "/" + ("d" + "/" + second));
      assert "/w/" + first + "/d/" + second == "/" + path;
      ParseBareSegments(path);
      WorkspaceSegments(first, "d" + "/" + second);
      SegmentThenMore("d", second);
      LastSegment(second);
      assert ["w"] + Part(first) + (["d"] + [second]) == ["w"] + Part(first) + ["d"] + [second];
    }
  }

  // ---- the round trip ----

  /** No part of the path is blank; query parameters may be. */
  predicate Printable(route: Route) {
    match route
    case Invite(token) => token != ""
    case Workspace(slug, Home) => slug != ""
    case Workspace(slug, Document(documentId)) => slug != "" && documentId != ""
    case _ => true
  }

  /** Reading a printed route gives it back exactly when no part of its path is blank. */
  lemma RouteRoundTrip(route: Route)
    ensures ParseRoute(RoutePath(route)) == route <==> Printable(route)
  {
    hide ParseRoute, RoutePath;
    match route
    case VerifyEmail(token) => QueryPaths(token);
    case ResetPassword(token) => QueryPaths(token);
    case DesktopConnect(callback) => QueryPaths(callback);
    case Invite(token) => InvitePath(token);
    case Workspace(slug, Home) => HomePath(slug);
    case Workspace(slug, Document(documentId)) => DocumentPath(slug, documentId);
    case NotFound => NotFoundPath();
    case _ => WholePaths();
  }

  /** The printed texts themselves. */
  lemma PrintedPaths(text: string, other: string)
    ensures RoutePath(Root) == "/" && RoutePath(Login) == "/login" && RoutePath(Register) == "/register"
    ensures RoutePath(ForgotPassword) == "/account/forgot-password" && RoutePath(NewWorkspace) == "/new"
    ensures RoutePath(DesktopConnectComplete) == "/desktop/connect/complete" && RoutePath(NotFound) == "/404"
    ensures var encoded := EncodeComponent(text);
            && RoutePath(VerifyEmail(text)) == "/account/verify-email?token=" + encoded
            && RoutePath(ResetPassword(text)) == "/account/reset-password?token=" + encoded
            && RoutePath(Invite(text)) == "/invite/" + encoded
            && RoutePath(DesktopConnect(text)) == "/desktop/connect?callback=" + encoded
            && RoutePath(Workspace(text, Home)) == "/w/" + encoded
            && RoutePath(Workspace(text, Document(other))) == "/w/" + encoded + "/d/" + EncodeComponent(other)
  {
    hide EncodeComponent;
    var encoded := EncodeComponent(text);
    assert "/account/verify-email" + "?" + ("token" + "=" + encoded) == "/account/verify-email?token=" + encoded;
    assert "/account/reset-password" + "?" + ("token" + "=" + encoded) == "/account/reset-password?token=" + encoded;
    assert "/desktop/connect" + "?" + ("callback" + "=" + encoded) == "/desktop/connect?callback=" + encoded;
  }
}
