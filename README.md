# Screen navigation assistant — Dafny model

This project models the core of a chat assistant that guides users through the
screens of an application. It covers three parts.

- **The screen navigation graph** (`ScreenNavigationGraph.py`). This is a set of
  known screens plus an undirected adjacency map, with a breadth-first search
  for the shortest path between two screens.
- **The request rules of `NavigationAssistant`** (`streamlit_app.py`). These
  are:
  - the greeting test;
  - the stop-word set and the text normaliser run before the similarity
    search;
  - the home-then-setup fallback when routing to the found screen;
  - the mapping of screen ids to display names;
  - the reply formatter;
  - the program-number extraction.
- **The conversation transcript** (`NavigationState`).

Files:

- `wrappers.dfy` holds `Option` and `Result`.
- `text.dfy` (module `Text`) holds the Python `str` operations the rules rely
  on: `isspace`, `lower`, `strip`, `in`, `split()`, `join`, and decimal digits
  for `int(...)` and `str(...)`.
- `screen_navigation_graph.dfy` (module `ScreenNavigation`) defines the class
  `ScreenNavigationGraph`. Its fields are `graph` and `screens`. A missing map
  key reads as the empty set, as a `defaultdict(set)` does. The search is a
  `while` loop over a queue of paths, proved against the definitions of walk,
  simple path, reachability and shortest path.
- `request_rules.dfy` (module `RequestRules`) holds the greeting, stop-word,
  normaliser and program-number rules.
- `assistant.dfy` (module `Assistant`) holds the graph construction from the
  screen table, display names, reply text, canned greetings, and the
  navigation request with its two-origin fallback.
- `conversation.dfy` (module `Conversation`) defines the class
  `NavigationState`.

The following become parameters, because the model cannot compute them:

- the NLTK English stop-word list;
- the WordNet lemmatiser;
- `str.isalnum`;
- the similarity search;
- the `random.choice` picks, given as indices;
- the timestamp.

The screen table is a sequence of `(screen id, parent page, display name)`
rows.

## Model

| member | source | states |
|---|---|---|
| ScreenNavigation.ScreenNavigationGraph.constructor | ScreenNavigationGraph.py:5-8 | A new graph has no screens and no edges, and satisfies the invariant. |
| ScreenNavigation.ScreenNavigationGraph.AddScreen | ScreenNavigationGraph.py:10-12 | `screens` gains exactly `screen` and the edges are unchanged. A second call with the same screen therefore changes nothing. The invariant is kept. |
| ScreenNavigation.ScreenNavigationGraph.AddNavigation | ScreenNavigationGraph.py:14-20 | Both screens become known. The new adjacency is `WithEdge(old, from, to)`, so `to ∈ graph[from]` and `from ∈ graph[to]`. The invariant (symmetric, every edge between known screens) is kept. |
| ScreenNavigation.WithEdge | ScreenNavigationGraph.py:18-20 | After the two set insertions, `y` is a neighbour of `x` exactly when it was before or `{x, y}` is the new pair. The keys gain both screens. |
| ScreenNavigation.WithEdgeIdempotent | ScreenNavigationGraph.py:14-20 | Adding the same navigation a second time leaves the adjacency unchanged. |
| ScreenNavigation.WithEdgeCommutes | ScreenNavigationGraph.py:18-20 | `add_navigation(a, b)` and `add_navigation(b, a)` give the same adjacency, because edges are undirected. |
| ScreenNavigation.WithEdgeWellFormed | ScreenNavigationGraph.py:14-20 | Adding an edge keeps the graph symmetric. It also keeps every screen that has a neighbour, and every neighbour, in `screens`. |
| ScreenNavigation.ReversedPath | ScreenNavigationGraph.py:18-20 | In a symmetric graph every path read backwards is a path. |
| ScreenNavigation.ReachableSymmetric | ScreenNavigationGraph.py:18-20 | In a symmetric graph, `t` is reachable from `s` exactly when `s` is reachable from `t`. |
| ScreenNavigation.ScreenNavigationGraph.GetNavigationPath | ScreenNavigationGraph.py:22-48 | The result is None when either endpoint is unknown. Between known screens it is Some exactly when the target is reachable. A returned path is non-empty, starts at the start, ends at the target and follows edges. No screen repeats in it, and no path between the two screens is shorter. From a known screen to itself the result is `[screen]`. |
| ScreenNavigation.VisitFront | ScreenNavigationGraph.py:35-45 | One loop round: pop the front path. If it ends at the target, it is returned as a shortest simple path. Otherwise its unvisited neighbours are enqueued, the BFS invariant (`SearchInv`) is re-established and the termination measure drops. |
| ScreenNavigation.EnqueueNeighbours | ScreenNavigationGraph.py:42-45 | Afterwards every neighbour of the current screen is visited and nothing else was added. The old queue is a prefix of the new one. Each appended path is a shortest simple path one hop longer, and the queue stays sorted by length within one hop. |
| ScreenNavigation.AdvanceLayer | ScreenNavigationGraph.py:35-45 | After a path is expanded, every walk from the start shorter than the new front path ends at an expanded screen. This is the layer property of BFS. |
| ScreenNavigation.ExtendShortest | ScreenNavigationGraph.py:42-45 | Appending an unvisited neighbour to a shortest simple path of the current layer gives a shortest simple path to that neighbour. |
| ScreenNavigation.TrivialShortest | ScreenNavigationGraph.py:39-40 | The only shortest path from a screen to itself is that screen alone. |
| ScreenNavigation.SearchStart | ScreenNavigationGraph.py:32-33 | The initial queue `[[start]]` and visited set `{start}` satisfy the search invariant. |
| ScreenNavigation.SearchExhausted | ScreenNavigationGraph.py:35-48 | When the queue runs empty without finding the target, the target is not reachable, so returning None is correct. |
| ScreenNavigation.ClosedHoldsReachable | ScreenNavigationGraph.py:35-48 | A set that contains the start and every neighbour of its members contains the end of every walk from the start. |
| ScreenNavigation.ScreenNavigationGraph.GetAllScreens | ScreenNavigationGraph.py:50-52 | Returns the known screens. Both ends of every edge lie in that set. |
| ScreenNavigation.ScreenNavigationGraph.GetConnectedScreens | ScreenNavigationGraph.py:54-56 | Returns the neighbour set, which is empty exactly when no screen lists `screen` as a neighbour. The `defaultdict` read may add an empty entry under `screen`. `screens` and every neighbour set are unchanged, and the invariant is kept. |
| Conversation.NavigationState.constructor | streamlit_app.py:31-34 | A new transcript is empty and both mode flags are false. |
| Conversation.NavigationState.AddMessage | streamlit_app.py:36-43 | Appends exactly one message with the given content, timestamp and sender. Earlier messages and both flags are unchanged. |
| Conversation.NavigationState.ClearHistory | streamlit_app.py:45-48 | The transcript becomes empty and both flags become false. |
| Assistant.InitializeNavigationGraph | streamlit_app.py:131-139 | The graph built from the table knows every screen id and every parent page. Its adjacency is the fold of `add_navigation(parent, screen)` over the rows. Every edge comes from some row. |
| Assistant.RowEdgesLinks | streamlit_app.py:137-138 | Two screens are neighbours in the built graph exactly when some row links them, in one direction or the other. |
| Assistant.RowEdges | streamlit_app.py:137-138 | The adjacency after `add_navigation(parent, screen)` for every row in order, as a fold of `WithEdge`. Which pairs it links is stated by `RowEdgesLinks`. |
| Assistant.NameMapFirstRow | streamlit_app.py:246-248 | When several rows list a screen id, the first one's display name wins, as `.iloc[0]` does. |
| Assistant.NameMap | streamlit_app.py:246-248 | The id-to-display-name lookup over the table. Its keys are exactly the screen ids listed in the table; which row wins is stated by `NameMapFirstRow`. |
| Assistant.UserScreenName | streamlit_app.py:246-248 | `_get_user_screen_name` over the lookup: the mapped name, or the id itself when the id is not listed. Over the table this is stated by `UserScreenNameOfRows`. |
| Assistant.UserScreenNameOfRows | streamlit_app.py:246-248 | The display name of a screen is the first matching row's name, or the id itself when no row lists it. |
| Assistant.DisplayPath | streamlit_app.py:243 | Keeps the path's length. Element `k` is the display name of path screen `k`. |
| Assistant.GetDisplayPath | streamlit_app.py:240-244 | Some exactly when both screens are known and the target is reachable. The result is non-empty and is the display form of a shortest simple graph path. |
| Assistant.JoinFourParts | streamlit_app.py:260-266 | `"\n".join(filter(None, parts))` of the four parts. The first and third parts are never empty. An empty second or fourth part disappears together with its line break. |
| Assistant.FormatNavigationResponse | streamlit_app.py:259-266 | `_format_navigation_response`: the four parts in order, `filter(None, …)`, joined by newlines. What the reply looks like is stated by `FormatClosedForm`, `FormatAdminIff` and `FormatFrame`. |
| Assistant.FormatClosedForm | streamlit_app.py:259-266 | The reply is, in order: the banner; the admin note on its own line when it is required; the origin line; and the path joined by " ➡️ " on its own line when that join is non-empty. |
| Assistant.FormatAdminIff | streamlit_app.py:259-266 | The admin note follows the banner exactly when `admin_required` is true. |
| Assistant.FormatFrame | streamlit_app.py:259-266 | Every reply starts with the banner and ends with the arrow-joined path. |
| Assistant.RepliesDistinct | streamlit_app.py:182-200 | A formatted path reply, the "screen not found" reply and the "no path" reply are pairwise different strings. |
| Assistant.GetRandomGreeting | streamlit_app.py:167-168 | The pick is one of the options for the greeting type. An unknown type gives "Hello". |
| Assistant.HandleGreeting | streamlit_app.py:235-238 | The reply is a "greet" phrase, then "! 👋 ", then one of the help messages. |
| Assistant.ProcessNavigationRequest | streamlit_app.py:171-200 | A greeting is answered with the greeting reply before any search. An empty search result gives "Sorry, I couldn't find the screen you're looking for." Otherwise the origins are tried in order: (1) if the target is routable from `AMGIOTHomeScreen`, the reply formats a shortest path from there, labelled "Home Screen" and without the admin note; (2) otherwise, if it is routable from `AMGIOTSetup`, the reply formats such a path labelled "Admin Settings", with the note; (3) otherwise the reply is "Sorry, I couldn't find a path to the requested screen." |
| RequestRules.GreetingIffSubstring | streamlit_app.py:229-233 | `_is_greeting(t)` holds exactly when one of the six phrases occurs in the lower-cased text. The exact-match test and the `strip` do not change the answer. |
| RequestRules.NoGreetingWithoutInitials | streamlit_app.py:229-233 | Every phrase starts with `h` or `g`, so a text containing neither letter (after lower-casing) is not a greeting. |
| RequestRules.HelloIsGreeting | streamlit_app.py:229-233 | "I want to say hello" is a greeting. |
| RequestRules.ThisIsGreeting | streamlit_app.py:229-233 | "this" is a greeting, because the test matches substrings ("hi") and not words. |
| RequestRules.SetupIsNoGreeting | streamlit_app.py:229-233 | "Setup" is not a greeting. |
| RequestRules.IsGreeting | streamlit_app.py:229-233 | `_is_greeting`: the exact-match test or the substring test on the lower-cased, stripped text. What it decides is stated by `GreetingIffSubstring` and the example lemmas around it. |
| RequestRules.InitializeStopWords | streamlit_app.py:153-165 | The result is Ok exactly when the corpus list holds both `down` and `am`. Otherwise it is the `KeyError` for `down` first, then `am`. In the Ok case a word is a stop word exactly when it is from the corpus or the fillers and is neither `down` nor `am`. |
| RequestRules.StopWordsShape | streamlit_app.py:155-165 | The stop-word set contains every custom filler (such as `take`, `navigate`, `please` and `me`) and every corpus word other than `down` and `am`. It never contains `down` or `am`. |
| RequestRules.KeepTokens | streamlit_app.py:251-255 | The `if word.lower() not in self.stop_words` filter of the comprehension. The result is never longer than the input; membership and order are stated by `KeepTokensMembers` and `KeepTokensAppend`. |
| RequestRules.KeepTokensMembers | streamlit_app.py:251-255 | A token survives the stop-word filter exactly when it is in the input and its lower-case form is not a stop word. |
| RequestRules.KeepTokensAppend | streamlit_app.py:251-255 | The filter distributes over concatenation, so surviving tokens keep their original order. |
| RequestRules.MapTokens | streamlit_app.py:251-253 | Every kept token is passed through the lemmatiser, position by position. |
| RequestRules.KeepAlnumSpace | streamlit_app.py:257 | The generator over the joined text: only alphanumeric and whitespace characters remain, and the result is no longer than the input. Its order and membership are stated by the two lemmas below. |
| RequestRules.KeepAlnumSpaceAppend | streamlit_app.py:257 | The character filter distributes over concatenation, so the kept characters stay in their original order. |
| RequestRules.KeepAlnumSpaceMembers | streamlit_app.py:257 | A character is in the output exactly when it is in the input and is alphanumeric or whitespace. |
| RequestRules.KeepAlnumSpaceIdentity | streamlit_app.py:257 | A text made only of alphanumeric and whitespace characters passes through the filter unchanged. |
| RequestRules.KeepAlnumSpaceJoin | streamlit_app.py:256-257 | Filtering the space-joined lemmas equals joining the filtered lemmas with spaces, because the separating spaces survive. |
| RequestRules.LemmatizeText | streamlit_app.py:249-257 | The normalised text contains only alphanumeric and whitespace characters. |
| RequestRules.NormalizeTokens | streamlit_app.py:249-257 | Suppose the lemmatiser gives each surviving token a lemma without whitespace. Then splitting the normalised text gives the surviving tokens, lemmatised, each with its characters that are neither alphanumeric nor whitespace removed, in their original order. Words that this removal leaves empty disappear. For example, `screen?` comes back as `screen` (with an identity lemmatiser), and a lone `?` leaves no word at all. |
| RequestRules.NormalizeAlnumTokens | streamlit_app.py:249-257 | When every surviving token lemmatises to a non-empty alphanumeric word, splitting the normalised text gives exactly those words, in order. |
| RequestRules.ExtractProgramNumber | streamlit_app.py:208-212 | None exactly when the input has no digit. Otherwise the result is a canonical decimal with no leading zero unless it is "0". |
| RequestRules.ProgramNumberIsFirstRun | streamlit_app.py:208-212 | The extracted number is the first maximal run of digits with its leading zeros removed, and it has that run's value. |
| RequestRules.ProcessProgramRequest | streamlit_app.py:206-212 | With no digit the reply is "Please provide a program number." Otherwise it is the program lookup's reply for the extracted number. |
| Text.StripKeepsContains | streamlit_app.py:231-233 | Stripping whitespace does not change whether a phrase with non-space ends occurs in a text. |
| Text.ContainsAt | streamlit_app.py:233 | Python's `p in s` holds exactly when `p` occurs at some index of `s`. |
| Text.Contains | streamlit_app.py:233 | Python's `p in s` on strings, as a recursive scan. What it decides is stated by `ContainsAt`. |
| Text.Lower | streamlit_app.py:231 | `str.lower()` on ASCII letters: the same length, and each character is lower-cased on its own. |
| Text.Strip | streamlit_app.py:231 | `str.strip()`: drop the leading, then the trailing whitespace. `StripKeepsContains` states what the greeting test needs from it. |
| Text.Split | streamlit_app.py:250 | `str.split()` with no argument: every resulting token is non-empty and free of whitespace. What it keeps is stated by `SplitLosesOnlySpaces` and `SplitJoin`. |
| Text.Join | streamlit_app.py:256 | `sep.join(ws)`: the words in order with `sep` between neighbours. Its inverse is stated by `SplitJoin` and `SplitJoinNonEmpty`. |
| Text.NonEmpty | streamlit_app.py:266 | `filter(None, parts)` on strings: the non-empty strings in their original order. |
| Text.SplitJoin | streamlit_app.py:250-256 | Joining whitespace-free tokens with single spaces and splitting again returns the tokens. |
| Text.SplitJoinNonEmpty | streamlit_app.py:250-256 | Joining whitespace-free words, some possibly empty, with single spaces and splitting again gives the words back without the empty ones. |
| Text.SplitLosesOnlySpaces | streamlit_app.py:250 | `split()` drops exactly the whitespace: glued back together, the tokens give the non-space characters in order. |
| Text.ParseThenPrint | streamlit_app.py:212 | `str(int(d))` for a digit string `d`, read as an unbounded integer, is `d` without its leading zeros, or "0" when `d` is all zeros. CPython's digit limit for `int()` is listed under Left out. |
| Text.DecimalRoundTrip | streamlit_app.py:212 | Reading back the decimal printed for `n` gives `n`. |

## Left out

- The Streamlit UI, `main()`, session handling, CSS and the Lottie download are not modelled. They are rendering and network I/O.
- The construction of the Qdrant client, the embeddings and the vector store is not modelled. `similarity_search` is the parameter `search`, which gives the target screen id or nothing. The `ast.literal_eval` of the record's `page_content` is folded into that parameter.
- ProcessNavigationRequest: the `except Exception` wrapper and its "An error occurred …" reply are not modelled, because every modelled step is total.
- The NLTK corpus contents and the WordNet lemmatiser are parameters.
- Reading the Excel file with pandas is not modelled: the table is a given sequence of rows. NaN cells are not modelled.
- RequestRules.ProcessProgramRequest: the `except Exception` wrapper (streamlit_app.py:225-227) and its "An error occurred while processing your request: …" reply are not modelled. In particular, in CPython 3.11 and later (and the matching security releases of earlier versions) `int(number_match.group())` raises `ValueError` ("Exceeds the limit (4300 digits) for integer string conversion …") for a digit run longer than 4300 characters, leading zeros included. The source then returns that error reply, while the model returns the lookup's reply for the extracted number. The same applies to RequestRules.ExtractProgramNumber and Text.ParseThenPrint, which read digit runs of any length. Errors raised by the database query are folded into `lookupReply`.
- The SQLite `LIKE` query and the formatting of its rows are not modelled. They are the parameter `lookupReply` of ProcessProgramRequest.
- `random.choice` becomes choice indices and `datetime.now()` becomes a timestamp string; both are nondeterministic.
- `Logger.py` (file-system logging) and `config.py` (constants) are not part of this model.
- LemmatizeText: `str.isalnum` is the parameter `isAlnum` rather than Python's Unicode definition.
- Text.Lower: lower-casing is modelled for ASCII letters only. Other characters are left as they are.
- Text.IsDigit: the `\d` class and `int()` are modelled for ASCII digits only. Python also accepts other Unicode decimal digits.
- ScreenNavigation.ScreenNavigationGraph.GetNavigationPath: the `defaultdict` reads inside the loop may insert empty entries into `graph`. They change no neighbour set, so the search reads a snapshot of the adjacency and leaves the field unchanged. The `print` of "Invalid start or target screen." is console output and is not modelled.
- ScreenNavigation.ScreenNavigationGraph.GetNavigationPath: the neighbour set is iterated in an unspecified order (`:|`). The contract holds for whichever shortest path that order produces, but does not say which one is returned.
- ScreenNavigation.ScreenNavigationGraph.GetConnectedScreens and GetAllScreens return set values. The Python code returns the live set objects, and aliasing through them is not modelled.
