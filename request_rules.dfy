/**
 * The text rules the navigation assistant applies to a user's message before and
 * after the similarity search: the greeting test, the stop-word set, the text
 * normaliser (`_lemmatize_text`) and the extraction of a program number.
 */
module RequestRules {
  import opened Wrappers
  import opened Text

  // ---------------------------------------------------------------- greetings

  const CommonGreetings: set<string> :=
    {"hi", "hello", "hey", "good morning", "good afternoon", "good evening"}

  /** `_is_greeting`: the lower-cased, stripped text is a greeting or contains one. */
  predicate IsGreeting(text: string) {
    var t := Strip(Lower(text));
    t in CommonGreetings || exists g | g in CommonGreetings :: Contains(t, g)
  }

  lemma ContainsSelf(s: string)
    ensures Contains(s, s)
  {
  }

  /** No greeting phrase starts or ends with whitespace. */
  lemma GreetingsUnpadded(g: string)
    requires g in CommonGreetings
    ensures |g| > 0 && !IsSpace(g[0]) && !IsSpace(g[|g| - 1])
  {
  }

  /**
   * The exact-match case adds nothing and stripping does not matter: a text is a
   * greeting exactly when one of the phrases occurs in its lower-case form.
   */
  lemma GreetingIffSubstring(text: string)
    ensures IsGreeting(text) <==> exists g :: g in CommonGreetings && Contains(Lower(text), g)
  {
    var t := Strip(Lower(text));
    forall g | g in CommonGreetings ensures Contains(t, g) <==> Contains(Lower(text), g) {
      GreetingsUnpadded(g);
      StripKeepsContains(Lower(text), g);
    }
    if t in CommonGreetings {
      ContainsSelf(t);
    }
  }

  /** A phrase whose first letter never occurs in `s` does not occur in `s`. */
  lemma AbsentInitial(s: string, p: string)
    requires |p| > 0 && forall k :: 0 <= k < |s| ==> s[k] != p[0]
    ensures !Contains(s, p)
  {
    forall i ensures !OccursAt(s, p, i) {
      if 0 <= i && i + |p| <= |s| {
        assert s[i..i + |p|][0] == s[i];
      }
    }
    ContainsAt(s, p);
  }

  lemma GreetingInitial(g: string)
    requires g in CommonGreetings
    ensures |g| > 0 && (g[0] == 'h' || g[0] == 'g')
  {
  }

  /** No greeting phrase occurs in a string without `h` and `g`. */
  lemma NoPhraseWithoutInitials(s: string)
    requires forall k :: 0 <= k < |s| ==> s[k] != 'h' && s[k] != 'g'
    ensures forall g :: g in CommonGreetings ==> !Contains(s, g)
  {
    forall g | g in CommonGreetings ensures !Contains(s, g) {
      GreetingInitial(g);
      AbsentInitial(s, g);
    }
  }

  /** Every greeting phrase begins with `h` or `g`, so a text without those letters is no greeting. */
  lemma NoGreetingWithoutInitials(text: string)
    requires forall k :: 0 <= k < |text| ==> LowerChar(text[k]) != 'h' && LowerChar(text[k]) != 'g'
    ensures !IsGreeting(text)
  {
    GreetingIffSubstring(text);
    NoPhraseWithoutInitials(Lower(text));
  }

  /** Lower-casing keeps an occurrence of a phrase that is already lower case. */
  lemma LowerKeepsOccurrence(s: string, p: string, i: int)
    requires OccursAt(s, p, i) && forall k :: 0 <= k < |p| ==> LowerChar(p[k]) == p[k]
    ensures OccursAt(Lower(s), p, i)
  {
    var t := Lower(s);
    forall k | 0 <= k < |p| ensures t[i + k] == p[k] {
      assert s[i + k] == s[i..i + |p|][k];
    }
    assert t[i..i + |p|] == p;
  }

  /** "I want to say hello" asks for nothing but is a greeting. */
  lemma HelloIsGreeting()
    ensures IsGreeting("I want to say hello")
  {
    var text := "I want to say hello";
    assert text[14..19] == "hello";
    LowerKeepsOccurrence(text, "hello", 14);
    ContainsAt(Lower(text), "hello");
    GreetingIffSubstring(text);
  }

  /** The substring test is not word-based: "this" counts as a greeting because it contains "hi". */
  lemma ThisIsGreeting()
    ensures IsGreeting("this")
  {
    var text := "this";
    assert text[1..3] == "hi";
    LowerKeepsOccurrence(text, "hi", 1);
    ContainsAt(Lower(text), "hi");
    GreetingIffSubstring(text);
  }

  /** "Setup" has neither an `h` nor a `g`, so it is not a greeting. */
  lemma SetupIsNoGreeting()
    ensures !IsGreeting("Setup")
  {
    NoGreetingWithoutInitials("Setup");
  }

  // ---------------------------------------------------------------- stop words

  /** The fillers added to the English stop-word list (the duplicated `need` collapses). */
  const CustomStopWords: set<string> :=
    {"open", "take", "go", "want", "need", "help", "show", "display",
     "give", "tell", "provide", "u", "navigate", "Please", "can", "you",
     "please", "would", "could", "i", "like", "if", "that",
     "works", "for", "me", "your", "way", "over", "on", "make", "find",
     "reach", "direct", "bring", "guide", "transport", "shift", "focus"}

  /**
   * `_initialize_stop_words` over the corpus list `base`: add the fillers, then
   * remove `down` and `am`; `set.remove` raises `KeyError` naming the first of
   * them that is missing.
   */
  function InitializeStopWords(base: set<string>): (r: Result<set<string>, string>)
    ensures r.Ok? <==> "down" in base && "am" in base
    ensures r.Err? ==> r.error == (if "down" !in base then "down" else "am")
    ensures r.Ok? ==> forall w :: w in r.value <==>
      (w in base || w in CustomStopWords) && w != "down" && w != "am"
  {
    var words := base + CustomStopWords;
    if "down" !in words then Err("down")
    else if "am" !in words then Err("am")
    else Ok(words - {"down"} - {"am"})
  }

  /** The resulting set holds every filler and never `down` or `am`. */
  lemma StopWordsShape(base: set<string>)
    requires InitializeStopWords(base).Ok?
    ensures CustomStopWords <= InitializeStopWords(base).value
    ensures base - {"down", "am"} <= InitializeStopWords(base).value
    ensures "down" !in InitializeStopWords(base).value && "am" !in InitializeStopWords(base).value
    ensures "take" in InitializeStopWords(base).value && "navigate" in InitializeStopWords(base).value
    ensures "please" in InitializeStopWords(base).value && "me" in InitializeStopWords(base).value
  {
    var r := InitializeStopWords(base).value;
    forall w | w in CustomStopWords ensures w in r {
      assert w != "down" && w != "am";
    }
  }

  // ---------------------------------------------------------------- normaliser

  /** The tokens of `ws` whose lower-case form is not a stop word, in order. */
  function KeepTokens(ws: seq<string>, stop: set<string>): (r: seq<string>)
    ensures |r| <= |ws|
  {
    if ws == [] then []
    else (if Lower(ws[0]) in stop then [] else [ws[0]]) + KeepTokens(ws[1..], stop)
  }

  /** Filtering distributes over concatenation, so kept tokens stay in their original order. */
  lemma {:induction false} KeepTokensAppend(a: seq<string>, b: seq<string>, stop: set<string>)
    ensures KeepTokens(a + b, stop) == KeepTokens(a, stop) + KeepTokens(b, stop)
  {
    if a == [] {
      assert a + b == b;
    } else {
      assert (a + b)[0] == a[0];
      assert (a + b)[1..] == a[1..] + b;
      KeepTokensAppend(a[1..], b, stop);
    }
  }

  /** A token is kept exactly when it occurs in the input and is not a stop word. */
  lemma {:induction false} KeepTokensMembers(ws: seq<string>, stop: set<string>, w: string)
    ensures w in KeepTokens(ws, stop) <==> w in ws && Lower(w) !in stop
  {
    if ws != [] {
      KeepTokensMembers(ws[1..], stop, w);
      assert w in ws <==> w == ws[0] || w in ws[1..];
    }
  }

  /** `lemmatize` applied to every token. */
  function MapTokens(ws: seq<string>, lemmatize: string -> string): (r: seq<string>)
    ensures |r| == |ws|
    ensures forall k :: 0 <= k < |ws| ==> r[k] == lemmatize(ws[k])
  {
    if ws == [] then [] else [lemmatize(ws[0])] + MapTokens(ws[1..], lemmatize)
  }

  /** The characters of `s` that are alphanumeric or whitespace, in order. */
  function KeepAlnumSpace(s: string, isAlnum: char -> bool): (r: string)
    ensures |r| <= |s|
    ensures forall i :: 0 <= i < |r| ==> isAlnum(r[i]) || IsSpace(r[i])
  {
    if s == [] then []
    else (if isAlnum(s[0]) || IsSpace(s[0]) then [s[0]] else []) + KeepAlnumSpace(s[1..], isAlnum)
  }

  /** A string made only of allowed characters passes through the character filter unchanged. */
  lemma {:induction false} KeepAlnumSpaceIdentity(s: string, isAlnum: char -> bool)
    requires forall i :: 0 <= i < |s| ==> isAlnum(s[i]) || IsSpace(s[i])
    ensures KeepAlnumSpace(s, isAlnum) == s
  {
    if s != [] {
      KeepAlnumSpaceIdentity(s[1..], isAlnum);
      assert s == [s[0]] + s[1..];
    }
  }

  /** The character filter distributes over concatenation, so kept characters stay in order. */
  lemma {:induction false} KeepAlnumSpaceAppend(a: string, b: string, isAlnum: char -> bool)
    ensures KeepAlnumSpace(a + b, isAlnum) == KeepAlnumSpace(a, isAlnum) + KeepAlnumSpace(b, isAlnum)
  {
    if a == [] {
      assert a + b == b;
    } else {
      assert (a + b)[0] == a[0];
      assert (a + b)[1..] == a[1..] + b;
      KeepAlnumSpaceAppend(a[1..], b, isAlnum);
    }
  }

  /** A character survives the filter exactly when it occurs in the input and is alphanumeric or whitespace. */
  lemma {:induction false} KeepAlnumSpaceMembers(s: string, isAlnum: char -> bool, c: char)
    ensures c in KeepAlnumSpace(s, isAlnum) <==> c in s && (isAlnum(c) || IsSpace(c))
  {
    if s != [] {
      KeepAlnumSpaceMembers(s[1..], isAlnum, c);
      assert c in s <==> c == s[0] || c in s[1..];
    }
  }

  /** The character filter applied to each word on its own. */
  function KeepAlnumSpaceEach(ws: seq<string>, isAlnum: char -> bool): (r: seq<string>)
    ensures |r| == |ws|
    ensures forall k :: 0 <= k < |ws| ==> r[k] == KeepAlnumSpace(ws[k], isAlnum)
  {
    if ws == [] then [] else [KeepAlnumSpace(ws[0], isAlnum)] + KeepAlnumSpaceEach(ws[1..], isAlnum)
  }

  /** Filtering a space-joined text is joining the filtered words: the separating spaces survive. */
  lemma {:induction false} KeepAlnumSpaceJoin(ws: seq<string>, isAlnum: char -> bool)
    ensures KeepAlnumSpace(Join(ws, " "), isAlnum) == Join(KeepAlnumSpaceEach(ws, isAlnum), " ")
  {
    if |ws| > 1 {
      var tail := Join(ws[1..], " ");
      var fs := KeepAlnumSpaceEach(ws, isAlnum);
      assert " "[0] == ' ' && " " == [' '] + [];
      assert KeepAlnumSpace(" ", isAlnum) == " ";
      KeepAlnumSpaceAppend(ws[0], " " + tail, isAlnum);
      KeepAlnumSpaceAppend(" ", tail, isAlnum);
      KeepAlnumSpaceJoin(ws[1..], isAlnum);
      assert fs[1..] == KeepAlnumSpaceEach(ws[1..], isAlnum);
      assert Join(ws, " ") == ws[0] + (" " + tail);
    } else if |ws| == 1 {
      assert KeepAlnumSpaceEach(ws, isAlnum) == [KeepAlnumSpace(ws[0], isAlnum)];
    }
  }

  /**
   * `_lemmatize_text`: split on whitespace, drop stop words, lemmatise the rest,
   * join with single spaces and keep only alphanumeric and whitespace characters.
   * The lemmatiser and `str.isalnum` are parameters.
   */
  function LemmatizeText(text: string, stop: set<string>, lemmatize: string -> string,
                         isAlnum: char -> bool): (r: string)
    ensures forall i :: 0 <= i < |r| ==> isAlnum(r[i]) || IsSpace(r[i])
  {
    KeepAlnumSpace(Join(MapTokens(KeepTokens(Split(text), stop), lemmatize), " "), isAlnum)
  }

  /** A whitespace-free word stays whitespace-free through the character filter. */
  lemma KeepAlnumSpaceNoSpace(w: string, isAlnum: char -> bool)
    requires NoSpace(w)
    ensures NoSpace(KeepAlnumSpace(w, isAlnum))
  {
    var r := KeepAlnumSpace(w, isAlnum);
    forall i | 0 <= i < |r| ensures !IsSpace(r[i]) {
      KeepAlnumSpaceMembers(w, isAlnum, r[i]);
    }
  }

  /**
   * When the lemmatiser maps each kept token to a word without whitespace, the
   * normalised text splits into the kept tokens, lemmatised and stripped of
   * characters that are neither alphanumeric nor whitespace, in order, with
   * the words left empty by the stripping dropped.
   */
  lemma NormalizeTokens(text: string, stop: set<string>, lemmatize: string -> string, isAlnum: char -> bool)
    requires forall w :: w in Split(text) && Lower(w) !in stop ==> NoSpace(lemmatize(w))
    ensures Split(LemmatizeText(text, stop, lemmatize, isAlnum)) ==
      NonEmpty(KeepAlnumSpaceEach(MapTokens(KeepTokens(Split(text), stop), lemmatize), isAlnum))
  {
    var kept := KeepTokens(Split(text), stop);
    var ws := MapTokens(kept, lemmatize);
    var fs := KeepAlnumSpaceEach(ws, isAlnum);
    forall k | 0 <= k < |fs| ensures NoSpace(fs[k]) {
      KeepTokensMembers(Split(text), stop, kept[k]);
      KeepAlnumSpaceNoSpace(ws[k], isAlnum);
    }
    KeepAlnumSpaceJoin(ws, isAlnum);
    SplitJoinNonEmpty(fs);
  }

  /**
   * When every kept token lemmatises to a non-empty alphanumeric word, the
   * normalised text splits back into exactly those words, in order.
   */
  lemma NormalizeAlnumTokens(text: string, stop: set<string>, lemmatize: string -> string, isAlnum: char -> bool)
    requires forall w :: w in Split(text) && Lower(w) !in stop ==>
      lemmatize(w) != [] && forall i :: 0 <= i < |lemmatize(w)| ==> isAlnum(lemmatize(w)[i]) && !IsSpace(lemmatize(w)[i])
    ensures Split(LemmatizeText(text, stop, lemmatize, isAlnum)) ==
      MapTokens(KeepTokens(Split(text), stop), lemmatize)
  {
    var kept := KeepTokens(Split(text), stop);
    var ws := MapTokens(kept, lemmatize);
    var fs := KeepAlnumSpaceEach(ws, isAlnum);
    forall k | 0 <= k < |ws| ensures fs[k] == ws[k] && ws[k] != [] {
      KeepTokensMembers(Split(text), stop, kept[k]);
      KeepAlnumSpaceIdentity(ws[k], isAlnum);
    }
    assert fs == ws;
    NonEmptyKeepsAll(ws);
    NormalizeTokens(text, stop, lemmatize, isAlnum);
  }

  // ---------------------------------------------------------------- program number

  const ProgramPrompt := "Please provide a program number."

  /**
   * The digit extraction of `process_program_request`: the first run of digits
   * (`re.search(r'\d+')`) read as an integer and printed back (`str(int(...))`).
   */
  function ExtractProgramNumber(input: string): (r: Option<string>)
    ensures r.None? <==> forall k :: 0 <= k < |input| ==> !IsDigit(input[k])
    ensures r.Some? ==> IsCanonicalDecimal(r.value)
  {
    var i := FirstDigitIndex(input);
    if i == |input| then None
    else
      var n := DigitPrefixLength(input[i..]);
      Some(NatToDecimal(DigitsValue(input[i..i + n])))
  }

  /**
   * The extracted number is the first maximal digit run of the input with its
   * leading zeros removed (a run of zeros gives "0"), and it has the run's value.
   */
  lemma ProgramNumberIsFirstRun(input: string) returns (i: nat, j: nat)
    requires ExtractProgramNumber(input).Some?
    ensures i < j <= |input|
    ensures forall k :: 0 <= k < i ==> !IsDigit(input[k])
    ensures AllDigits(input[i..j]) && (j < |input| ==> !IsDigit(input[j]))
    ensures ExtractProgramNumber(input).value == StripLeadingZeros(input[i..j])
    ensures DigitsValue(ExtractProgramNumber(input).value) == DigitsValue(input[i..j])
  {
    i := FirstDigitIndex(input);
    var n := DigitPrefixLength(input[i..]);
    j := i + n;
    assert input[i..][0] == input[i];
    assert input[i..j] == input[i..][..n];
    ParseThenPrint(input[i..j]);
    DecimalRoundTrip(DigitsValue(input[i..j]));
    assert j < |input| ==> input[j] == input[i..][n];
  }

  /**
   * `process_program_request` up to the database: the prompt when there is no
   * digit, otherwise whatever the program lookup `lookupReply` answers for the number.
   */
  function ProcessProgramRequest(input: string, lookupReply: string -> string): (r: string)
    ensures ExtractProgramNumber(input).None? ==> r == ProgramPrompt
    ensures ExtractProgramNumber(input).Some? ==> r == lookupReply(ExtractProgramNumber(input).value)
  {
    match ExtractProgramNumber(input)
    case None => ProgramPrompt
    case Some(number) => lookupReply(number)
  }
}
