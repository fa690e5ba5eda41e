/**
 * The navigation assistant around the screen graph: building the graph from the
 * screen table, display names, the reply formatter, canned greetings and the
 * request flow with its two-origin fallback (home screen first, then setup).
 */
module Assistant {
  import opened Wrappers
  import opened Text
  import opened ScreenNavigation
  import opened RequestRules

  /** One row of the screen table: the screen id, its parent page and the name users see. */
  datatype ScreenRow = ScreenRow(screenName: Screen, parentPage: Screen, userScreenName: string)

  // ---------------------------------------------------------------- building the graph

  /** The adjacency after `add_navigation(parent, screen)` for every row, in order. */
  function RowEdges(rows: seq<ScreenRow>): Adjacency {
    if rows == [] then map[]
    else
      var last := rows[|rows| - 1];
      WithEdge(RowEdges(rows[..|rows| - 1]), last.parentPage, last.screenName)
  }

  /** Row `i` links `x` and `y`, in one direction or the other. */
  ghost predicate RowLinks(rows: seq<ScreenRow>, i: int, x: Screen, y: Screen) {
    0 <= i < |rows| &&
    ((rows[i].parentPage == x && rows[i].screenName == y) ||
     (rows[i].screenName == x && rows[i].parentPage == y))
  }

  /** Two screens are neighbours exactly when some row links them. */
  lemma {:induction false} RowEdgesLinks(rows: seq<ScreenRow>, x: Screen, y: Screen)
    ensures y in Neighbours(RowEdges(rows), x) <==> exists i :: RowLinks(rows, i, x, y)
  {
    if rows != [] {
      var init := rows[..|rows| - 1];
      var last := rows[|rows| - 1];
      RowEdgesLinks(init, x, y);
      RowLinksSnoc(rows, init, x, y);
      assert RowEdges(rows) == WithEdge(RowEdges(init), last.parentPage, last.screenName);
    }
  }

  /** A link in `rows` is a link in all rows but the last, or the last row itself. */
  lemma RowLinksSnoc(rows: seq<ScreenRow>, init: seq<ScreenRow>, x: Screen, y: Screen)
    requires rows != [] && init == rows[..|rows| - 1]
    ensures (exists i :: RowLinks(rows, i, x, y)) <==>
      (exists i :: RowLinks(init, i, x, y)) || RowLinks(rows, |rows| - 1, x, y)
  {
    if exists i :: RowLinks(init, i, x, y) {
      var i :| RowLinks(init, i, x, y);
      assert RowLinks(rows, i, x, y);
    }
    if exists i :: RowLinks(rows, i, x, y) {
      var i :| RowLinks(rows, i, x, y);
      if i < |rows| - 1 {
        assert RowLinks(init, i, x, y);
      }
    }
  }

  function ScreenNames(rows: seq<ScreenRow>): set<Screen> {
    set i | 0 <= i < |rows| :: rows[i].screenName
  }

  function ParentPages(rows: seq<ScreenRow>): set<Screen> {
    set i | 0 <= i < |rows| :: rows[i].parentPage
  }

  lemma NamesExtend(rows: seq<ScreenRow>, i: nat)
    requires i < |rows|
    ensures ScreenNames(rows[..i + 1]) == ScreenNames(rows[..i]) + {rows[i].screenName}
    ensures ParentPages(rows[..i + 1]) == ParentPages(rows[..i]) + {rows[i].parentPage}
  {
    var a := rows[..i];
    var b := rows[..i + 1];
    assert forall k :: 0 <= k < i ==> b[k] == a[k];
    assert b[i] == rows[i];
  }

  /**
   * `_initialize_navigation_graph` over the rows of the screen table: register every
   * screen id, then add an edge from each row's parent page to its screen.
   */
  method InitializeNavigationGraph(rows: seq<ScreenRow>) returns (nav: ScreenNavigationGraph)
    ensures fresh(nav) && nav.Valid()
    ensures nav.screens == ScreenNames(rows) + ParentPages(rows)
    ensures nav.graph == RowEdges(rows)
    ensures forall x, y :: y in Neighbours(nav.graph, x) ==> exists i :: RowLinks(rows, i, x, y)
  {
    nav := new ScreenNavigationGraph();
    var i := 0;
    while i < |rows|
      invariant 0 <= i <= |rows|
      invariant nav.Valid() && nav.graph == map[]
      invariant nav.screens == ScreenNames(rows[..i])
    {
      NamesExtend(rows, i);
      nav.AddScreen(rows[i].screenName);
      i := i + 1;
    }
    assert rows[..|rows|] == rows;
    i := 0;
    while i < |rows|
      invariant 0 <= i <= |rows|
      invariant nav.Valid()
      invariant nav.screens == ScreenNames(rows) + ParentPages(rows[..i])
      invariant nav.graph == RowEdges(rows[..i])
    {
      NamesExtend(rows, i);
      RowEdgesSnoc(rows, i);
      ghost var before := nav.screens;
      assert rows[i].screenName in ScreenNames(rows);
      nav.AddNavigation(rows[i].parentPage, rows[i].screenName);
      ScreensStep(ScreenNames(rows), ParentPages(rows[..i]), rows[i].parentPage, rows[i].screenName, before, nav.screens);
      i := i + 1;
    }
    RowEdgesOnlyLinks(rows);
  }

  lemma ScreensStep(names: set<Screen>, parents: set<Screen>, p: Screen, n: Screen,
                    before: set<Screen>, after: set<Screen>)
    requires n in names && before == names + parents && after == before + {p, n}
    ensures after == names + (parents + {p})
  {
  }

  lemma RowEdgesSnoc(rows: seq<ScreenRow>, i: nat)
    requires i < |rows|
    ensures RowEdges(rows[..i + 1]) == WithEdge(RowEdges(rows[..i]), rows[i].parentPage, rows[i].screenName)
  {
    assert rows[..i + 1][..i] == rows[..i];
  }

  /** Every edge of the built graph comes from some row. */
  lemma RowEdgesOnlyLinks(rows: seq<ScreenRow>)
    ensures forall x, y :: y in Neighbours(RowEdges(rows), x) ==> exists i :: RowLinks(rows, i, x, y)
  {
    forall x, y | y in Neighbours(RowEdges(rows), x) ensures exists i :: RowLinks(rows, i, x, y) {
      RowEdgesLinks(rows, x, y);
    }
  }

  // ---------------------------------------------------------------- display names

  /** The display-name lookup: each screen id maps to the name of the first row that lists it. */
  function NameMap(rows: seq<ScreenRow>): (m: map<Screen, string>)
    ensures m.Keys == ScreenNames(rows)
  {
    if rows == [] then map[]
    else NameMap(rows[1..])[rows[0].screenName := rows[0].userScreenName]
  }

  /** The first row naming a screen decides its display name, as `.iloc[0]` does. */
  lemma {:induction false} NameMapFirstRow(rows: seq<ScreenRow>, i: nat)
    requires i < |rows| && forall j :: 0 <= j < i ==> rows[j].screenName != rows[i].screenName
    ensures NameMap(rows)[rows[i].screenName] == rows[i].userScreenName
  {
    if i > 0 {
      assert rows[1..][i - 1] == rows[i];
      forall j | 0 <= j < i - 1 ensures rows[1..][j].screenName != rows[i].screenName {
        assert rows[1..][j] == rows[j + 1];
      }
      NameMapFirstRow(rows[1..], i - 1);
    }
  }

  /** `_get_user_screen_name`: the registered display name, or the id itself. */
  function UserScreenName(names: map<Screen, string>, screen: Screen): string {
    if screen in names then names[screen] else screen
  }

  /** Over the screen table: the first matching row's display name, else the id unchanged. */
  lemma UserScreenNameOfRows(rows: seq<ScreenRow>, screen: Screen)
    ensures (forall i :: 0 <= i < |rows| ==> rows[i].screenName != screen) ==>
      UserScreenName(NameMap(rows), screen) == screen
    ensures forall i ::
      (0 <= i < |rows| && rows[i].screenName == screen &&
       forall j :: 0 <= j < i ==> rows[j].screenName != screen) ==>
      UserScreenName(NameMap(rows), screen) == rows[i].userScreenName
  {
    forall i | 0 <= i < |rows| && rows[i].screenName == screen &&
      (forall j :: 0 <= j < i ==> rows[j].screenName != screen)
      ensures UserScreenName(NameMap(rows), screen) == rows[i].userScreenName
    {
      NameMapFirstRow(rows, i);
    }
  }

  /** The display names along a path. */
  function DisplayPath(names: map<Screen, string>, path: seq<Screen>): (r: seq<string>)
    ensures |r| == |path|
    ensures forall k :: 0 <= k < |path| ==> r[k] == UserScreenName(names, path[k])
  {
    seq(|path|, k requires 0 <= k < |path| => UserScreenName(names, path[k]))
  }

  /** A Python list is truthy when it is present and non-empty. */
  predicate Truthy<T>(o: Option<seq<T>>) {
    o.Some? && o.value != []
  }

  /**
   * `_get_navigation_path`: the graph's path with every id replaced by its display
   * name, or None when the graph has no path.
   */
  method GetDisplayPath(nav: ScreenNavigationGraph, names: map<Screen, string>,
                        startScreen: Screen, targetScreen: Screen)
    returns (r: Option<seq<string>>)
    ensures r.Some? <==> Routable(nav.screens, nav.graph, startScreen, targetScreen)
    ensures r.Some? ==> r.value != []
    ensures r.Some? ==>
      exists p :: IsShortestPath(nav.graph, p, startScreen, targetScreen) && IsSimple(p) &&
        r.value == DisplayPath(names, p)
  {
    var path := nav.GetNavigationPath(startScreen, targetScreen);
    if Truthy(path) {
      r := Some(DisplayPath(names, path.value));
    } else {
      r := None;
    }
  }

  /** Both screens are known and the target can be reached from the start. */
  ghost predicate Routable(screens: set<Screen>, g: Adjacency, s: Screen, t: Screen) {
    s in screens && t in screens && Reachable(g, s, t)
  }

  // ---------------------------------------------------------------- reply text

  const TargetMark := "\U{1F3AF}"
  const WarningMark := "\U{26A0}\U{FE0F}"
  const CompassMark := "\U{1F9ED}"
  const ArrowMark := "\U{27A1}\U{FE0F}"

  const Banner := TargetMark + " Found the screen you're looking for!"
  const AdminNote := "\n" + WarningMark + " Note: This requires Admin Settings access."
  const Arrow := " " + ArrowMark + " "

  function OriginLine(startPoint: string): string {
    "\n" + CompassMark + " Navigation path from " + startPoint + ":"
  }


  /**
   * `_format_navigation_response`: banner, the admin note when it is required, the
   * origin line and the path joined by arrows, empty parts dropped, joined by newlines.
   */
  function FormatNavigationResponse(path: seq<string>, startPoint: string, adminRequired: bool): string {
    var parts := [Banner, if adminRequired then AdminNote else "", OriginLine(startPoint), Join(path, Arrow)];
    Join(NonEmpty(parts), "\n")
  }

  /** `filter(None, [b, a, o, j])` for a non-empty first and third part. */
  lemma NonEmptyFour(b: string, a: string, o: string, j: string)
    requires b != [] && o != []
    ensures NonEmpty([b, a, o, j]) ==
      [b] + ((if a == [] then [] else [a]) + ([o] + (if j == [] then [] else [j])))
  {
    assert [b, a, o, j] == [b] + ([a] + ([o] + [j]));
    NonEmptyCons(j, []);
    assert [j] + [] == [j];
    NonEmptyCons(o, [j]);
    NonEmptyCons(a, [o] + [j]);
    NonEmptyCons(b, [a] + ([o] + [j]));
  }

  /** Joining the last two lines: `o`, then `j` on a line of its own when present. */
  lemma JoinLastLines(o: string, j: string)
    ensures Join([o] + (if j == [] then [] else [j]), "\n") == o + (if j == [] then "" else "\n" + j)
  {
    var t := if j == [] then [] else [j];
    JoinCons(o, t, "\n");
    if t != [] {
      JoinCons(j, [], "\n");
      assert [j] + [] == [j];
    }
  }

  /** `"\n".join(filter(None, [b, a, o, j]))` for a non-empty first and third part. */
  lemma JoinFourParts(b: string, a: string, o: string, j: string)
    requires b != [] && o != []
    ensures Join(NonEmpty([b, a, o, j]), "\n") ==
      b + (if a == [] then "" else "\n" + a) + "\n" + o + (if j == [] then "" else "\n" + j)
  {
    NonEmptyFour(b, a, o, j);
    var mid := [o] + (if j == [] then [] else [j]);
    var tail := if j == [] then "" else "\n" + j;
    JoinLastLines(o, j);
    if a != [] {
      JoinCons(a, mid, "\n");
      JoinCons(b, [a] + mid, "\n");
      assert Join(NonEmpty([b, a, o, j]), "\n") == b + "\n" + (a + "\n" + (o + tail));
    } else {
      assert [] + mid == mid;
      JoinCons(b, mid, "\n");
      assert Join(NonEmpty([b, a, o, j]), "\n") == b + "\n" + (o + tail);
    }
  }

  /** The reply written out: its parts in order, each empty part dropped together with its line break. */
  lemma FormatClosedForm(path: seq<string>, startPoint: string, adminRequired: bool)
    ensures FormatNavigationResponse(path, startPoint, adminRequired) ==
      Banner + (if adminRequired then "\n" + AdminNote else "") + "\n" + OriginLine(startPoint) +
      (if Join(path, Arrow) == [] then "" else "\n" + Join(path, Arrow))
  {
    assert |Banner| > 0 && |AdminNote| > 0 && |OriginLine(startPoint)| > 0;
    JoinFourParts(Banner, if adminRequired then AdminNote else "", OriginLine(startPoint), Join(path, Arrow));
  }

  /** The shape behind `FormatAdminIff`, over arbitrary parts. */
  lemma OptionalPartIff(b: string, note: string, o: string, tail: string, present: bool)
    requires |note| >= 2 && |o| >= 2 && note[1] != o[1]
    ensures present <==>
      b + "\n" + note <= b + (if present then "\n" + note else "") + "\n" + o + tail
  {
    var p := b + "\n" + note;
    var r := b + (if present then "\n" + note else "") + "\n" + o + tail;
    var n := |b|;
    if present {
      assert r == p + ("\n" + o + tail);
    } else {
      assert r[n + 2] == o[1];
      assert p[n + 2] == note[1];
    }
  }

  /** The note about admin access appears right after the banner exactly when it is required. */
  lemma FormatAdminIff(path: seq<string>, startPoint: string, adminRequired: bool)
    ensures adminRequired <==>
      Banner + "\n" + AdminNote <= FormatNavigationResponse(path, startPoint, adminRequired)
  {
    FormatClosedForm(path, startPoint, adminRequired);
    assert AdminNote[1] == WarningMark[0];
    assert OriginLine(startPoint)[1] == CompassMark[0];
    OptionalPartIff(Banner, AdminNote, OriginLine(startPoint),
      if Join(path, Arrow) == [] then "" else "\n" + Join(path, Arrow), adminRequired);
  }

  /** Every formatted reply starts with the banner and ends with the joined path. */
  lemma FormatFrame(path: seq<string>, startPoint: string, adminRequired: bool)
    ensures Banner <= FormatNavigationResponse(path, startPoint, adminRequired)
    ensures var r := FormatNavigationResponse(path, startPoint, adminRequired);
      var j := Join(path, Arrow);
      |j| <= |r| && r[|r| - |j|..] == j
  {
    FormatClosedForm(path, startPoint, adminRequired);
    FrameOf(Banner, if adminRequired then "\n" + AdminNote else "", OriginLine(startPoint), Join(path, Arrow),
      FormatNavigationResponse(path, startPoint, adminRequired));
  }

  /** The shape behind `FormatFrame`, over arbitrary parts. */
  lemma FrameOf(b: string, a: string, o: string, j: string, r: string)
    requires r == b + a + "\n" + o + (if j == [] then "" else "\n" + j)
    ensures b <= r && |j| <= |r| && r[|r| - |j|..] == j
  {
    var head := b + a + "\n" + o + (if j == [] then "" else "\n");
    assert r == head + j;
    assert r == b + (a + "\n" + o + (if j == [] then "" else "\n" + j));
  }

  // ---------------------------------------------------------------- greetings

  const GreetOptions: seq<string> := ["Hi there", "Hello there", "Hey there"]
  const HelpOptions: seq<string> := [
    "I'm here to help you navigate through the application. Where would you like to go?",
    "How can I assist you with navigation today?",
    "I can help you find any screen in the application. Just let me know where you want to go!"]

  /** `_load_greeting_patterns`. */
  const GreetingPatterns: map<string, seq<string>> := map[
    "hello" := ["Hi", "Hello", "Hey"],
    "greet" := GreetOptions,
    "welcome_back" := ["Welcome back", "Nice to see you again", "Great to have you back"],
    "help" := HelpOptions]

  /** The phrases `get_random_greeting` picks from: the pattern list, or `["Hello"]` for an unknown type. */
  function GreetingOptions(greetingType: string): (r: seq<string>)
    ensures |r| > 0
  {
    if greetingType in GreetingPatterns then GreetingPatterns[greetingType] else ["Hello"]
  }

  /** `get_random_greeting`, with the random choice given as an index into the options. */
  function GetRandomGreeting(greetingType: string, choice: nat): (r: string)
    requires choice < |GreetingOptions(greetingType)|
    ensures r in GreetingOptions(greetingType)
    ensures greetingType !in GreetingPatterns ==> r == "Hello"
  {
    GreetingOptions(greetingType)[choice]
  }

  /** `_handle_greeting`: a greeting phrase, a waving hand and one of the help messages. */
  function HandleGreeting(greetChoice: nat, helpChoice: nat): (r: string)
    requires greetChoice < |GreetOptions| && helpChoice < |HelpOptions|
    ensures exists gr, hm :: gr in GreetOptions && hm in HelpOptions && r == gr + "! \U{1F44B} " + hm
  {
    var gr := GetRandomGreeting("greet", greetChoice);
    var hm := GetRandomGreeting("help", helpChoice);
    gr + "! \U{1F44B} " + hm
  }

  // ---------------------------------------------------------------- request flow

  const HomeScreen := "AMGIOTHomeScreen"
  const SetupScreen := "AMGIOTSetup"
  const Apology := "Sorry, I couldn't find "
  const ScreenNotFound := Apology + "the screen you're looking for."
  const PathNotFound := Apology + "a path to the requested screen."

  /** `r` is the formatted reply for some shortest simple path from `origin` to `target`. */
  ghost predicate RepliesWithPath(g: Adjacency, names: map<Screen, string>,
                                  origin: Screen, startPoint: string, admin: bool, target: Screen, r: string) {
    exists p :: IsShortestPath(g, p, origin, target) && IsSimple(p) &&
      r == FormatNavigationResponse(DisplayPath(names, p), startPoint, admin)
  }

  /**
   * `process_navigation_request`: a greeting is answered at once; otherwise the
   * normalised text goes to the similarity search `search`, and the target it
   * names is routed from the home screen, failing that from the setup screen
   * (with the admin note), failing that the reply says no path was found.
   */
  method ProcessNavigationRequest(nav: ScreenNavigationGraph, names: map<Screen, string>,
                                  stop: set<string>, lemmatize: string -> string,
                                  isAlnum: char -> bool, search: string -> Option<Screen>,
                                  greetChoice: nat, helpChoice: nat, userInput: string)
    returns (r: string)
    requires greetChoice < |GreetOptions| && helpChoice < |HelpOptions|
    ensures IsGreeting(userInput) ==> r == HandleGreeting(greetChoice, helpChoice)
    ensures !IsGreeting(userInput) && search(LemmatizeText(userInput, stop, lemmatize, isAlnum)).None? ==>
      r == ScreenNotFound
    ensures !IsGreeting(userInput) && search(LemmatizeText(userInput, stop, lemmatize, isAlnum)).Some? ==>
      var t := search(LemmatizeText(userInput, stop, lemmatize, isAlnum)).value;
      (Routable(nav.screens, nav.graph, HomeScreen, t) ==>
        RepliesWithPath(nav.graph, names, HomeScreen, "Home Screen", false, t, r)) &&
      (!Routable(nav.screens, nav.graph, HomeScreen, t) && Routable(nav.screens, nav.graph, SetupScreen, t) ==>
        RepliesWithPath(nav.graph, names, SetupScreen, "Admin Settings", true, t, r)) &&
      (!Routable(nav.screens, nav.graph, HomeScreen, t) && !Routable(nav.screens, nav.graph, SetupScreen, t) ==>
        r == PathNotFound)
  {
    if IsGreeting(userInput) {
      return HandleGreeting(greetChoice, helpChoice);
    }
    var lemmatized := LemmatizeText(userInput, stop, lemmatize, isAlnum);
    var results := search(lemmatized);
    if results.None? {
      return ScreenNotFound;
    }
    var targetScreen := results.value;
    var path := GetDisplayPath(nav, names, HomeScreen, targetScreen);
    if Truthy(path) {
      return FormatNavigationResponse(path.value, "Home Screen", false);
    }
    var adminPath := GetDisplayPath(nav, names, SetupScreen, targetScreen);
    if Truthy(adminPath) {
      return FormatNavigationResponse(adminPath.value, "Admin Settings", true);
    }
    return PathNotFound;
  }

  /** The three replies that end a navigation request can always be told apart. */
  lemma RepliesDistinct(path: seq<string>, startPoint: string, adminRequired: bool)
    ensures ScreenNotFound != PathNotFound
    ensures FormatNavigationResponse(path, startPoint, adminRequired) != ScreenNotFound
    ensures FormatNavigationResponse(path, startPoint, adminRequired) != PathNotFound
  {
    var r := FormatNavigationResponse(path, startPoint, adminRequired);
    FormatFrame(path, startPoint, adminRequired);
    assert r[0] == Banner[0] == TargetMark[0];
    assert ScreenNotFound[0] == Apology[0] && PathNotFound[0] == Apology[0];
    assert |ScreenNotFound| != |PathNotFound|;
  }
}
