/**
 * The log searcher: it classifies its search criterion, compiles the search
 * regex, scans the entries of the log directory that the glob `*.log` lets
 * through, keeps the full path of every entry whose name the regex matches,
 * records the search in the metadata store and maps failures to the
 * searcher's error kinds.
 *
 * The directory is an input: the names it enumerates, in order, or the
 * failure that opening, walking or closing it raises. The regex library is an
 * input too, for the keys the model does not interpret (those holding regex
 * metacharacters); literal keys are matched by LogMatch.LiteralMatches.
 */
module LogSearch {
  import opened LogMatch

  /** The exceptions a search throws, one per catch clause. */
  datatype SearchError =
    | InvalidRegex    // the search regex does not compile
    | FileNotFound    // the log directory does not exist
    | ReadError       // any other I/O failure opening or closing the directory stream
    | Unexpected      // any other exception, such as a failure while iterating

  datatype Result<T> = Success(value: T) | Failure(error: SearchError)

  /** What Pattern.compile makes of a regex: a syntax error, or a whole-name matcher. */
  datatype Pattern = SyntaxError | Compiled(matches: string -> bool)

  /** The log directory as the directory stream presents it. */
  datatype Listing =
    | Entries(names: seq<string>)        // the file names it enumerates, in order
    | NoSuchDirectory                    // opening the stream throws NoSuchFileException
    | OpenFailure                        // opening it throws another IOException
    | IterationFailure                   // walking it throws DirectoryIteratorException
    | CloseFailure(names: seq<string>)   // it enumerates `names`, then closing it throws an IOException

  /**
   * Whether the search reaches `metadata.logSearch`: the call is the last
   * statement of the try-with-resources body, so it runs whenever the regex
   * compiled and the whole stream was walked, even when closing the stream
   * afterwards fails.
   */
  predicate ReachesRecord(pattern: Pattern, listing: Listing) {
    pattern.Compiled? && (listing.Entries? || listing.CloseFailure?)
  }

  /** The audit descriptions the two search methods hand to the metadata store. */
  const DateDescription: string := "searched by date"
  const EquipmentDescription: string := "searched by equipment"

  /**
   * Compile `SearchRegex(key)`: a literal key always compiles, to a matcher
   * that accepts exactly the names in the language of `.*KEY.*\.log$`; any
   * other key is left to `engine`, which stands for java.util.regex.
   */
  function CompilePattern(key: string, engine: string -> Pattern): (p: Pattern)
    ensures IsLiteralKey(key) ==> p.Compiled? && forall name :: p.matches(name) <==> InSearchLanguage(key, name)
  {
    if IsLiteralKey(key) then
      assert forall name :: LiteralMatches(key, name) <==> InSearchLanguage(key, name) by {
        forall name ensures LiteralMatches(key, name) <==> InSearchLanguage(key, name) {
          LiteralMatchesIff(key, name);
        }
      }
      Compiled(name => LiteralMatches(key, name))
    else engine(SearchRegex(key))
  }

  /**
   * The outcome of one search over a compiled or failed pattern: the regex is
   * compiled before the directory is touched, so a syntax error wins over any
   * directory failure; on success the result is the paths of the matching
   * `*.log` entries.
   */
  function Search(pattern: Pattern, listing: Listing, dir: string): (r: Result<seq<string>>)
    ensures r.Success? <==> pattern.Compiled? && listing.Entries?
    ensures pattern.SyntaxError? ==> r == Failure(InvalidRegex)
    ensures r.Success? ==> r.value == Matched(dir, listing.names, n => HasLogSuffix(n) && pattern.matches(n))
    ensures r.Success? ==> forall x :: x in r.value ==>
      exists n :: n in listing.names && HasLogSuffix(n) && pattern.matches(n) && x == EntryPath(dir, n)
  {
    match pattern
    case SyntaxError => Failure(InvalidRegex)
    case Compiled(matches) =>
      match listing
      case NoSuchDirectory => Failure(FileNotFound)
      case OpenFailure => Failure(ReadError)
      case IterationFailure => Failure(Unexpected)
      case CloseFailure(_) => Failure(ReadError)
      case Entries(names) =>
        GlobThenMatch(dir, names, matches);
        Success(Matched(dir, LogGlob(names), matches))
  }

  /** The loop over the directory stream, building `matchedFiles` in enumeration order. */
  method CollectMatches(dir: string, stream: seq<string>, matches: string -> bool) returns (matchedFiles: seq<string>)
    ensures matchedFiles == Matched(dir, stream, matches)
  {
    matchedFiles := [];
    for i := 0 to |stream|
      invariant matchedFiles == Matched(dir, stream[..i], matches)
    {
      MatchedSnoc(dir, stream[..i], stream[i], matches);
      assert stream[..i + 1] == stream[..i] + [stream[i]];
      if matches(stream[i]) {
        matchedFiles := matchedFiles + [EntryPath(dir, stream[i])];
      }
    }
    assert stream[..|stream|] == stream;
  }

  /** The regex fails to compile before the directory is looked at: every listing gives the same error. */
  lemma InvalidRegexBeforeDirectory(listing: Listing, other: Listing, dir: string)
    ensures Search(SyntaxError, listing, dir) == Search(SyntaxError, other, dir) == Failure(InvalidRegex)
  {
  }

  /** A compiled pattern maps each directory failure to its own error. */
  lemma DirectoryErrorsMap(matches: string -> bool, dir: string, names: seq<string>)
    ensures Search(Compiled(matches), NoSuchDirectory, dir) == Failure(FileNotFound)
    ensures Search(Compiled(matches), OpenFailure, dir) == Failure(ReadError)
    ensures Search(Compiled(matches), IterationFailure, dir) == Failure(Unexpected)
    ensures Search(Compiled(matches), CloseFailure(names), dir) == Failure(ReadError)
  {
  }

  /**
   * For any compiled pattern and a listable directory: the search succeeds,
   * keeps the enumeration order, lists every `.log` entry the pattern
   * matches exactly as often as the directory does and nothing else, and is
   * empty exactly when no such entry exists.
   */
  lemma CompiledSearchSelectsExactly(matches: string -> bool, names: seq<string>, dir: string, n: string)
    ensures var r := Search(Compiled(matches), Entries(names), dir);
      && r.Success?
      && IsSubsequence(r.value, Paths(dir, names))
      && multiset(r.value)[EntryPath(dir, n)] == (if HasLogSuffix(n) && matches(n) then multiset(names)[n] else 0)
      && (r.value == [] <==> forall i :: 0 <= i < |names| ==> !(HasLogSuffix(names[i]) && matches(names[i])))
  {
    var keep := name => HasLogSuffix(name) && matches(name);
    GlobThenMatch(dir, names, matches);
    MatchedIsSubsequence(dir, names, keep);
    MatchedCount(dir, names, keep, n);
    MatchedEmptyIff(dir, names, keep);
  }

  /**
   * For a literal key the search finds exactly the entries named
   * `p + key + q + ".log"`, lists each as often as the directory does and
   * nothing else, keeps the enumeration order, and finds nothing rather than
   * failing when no entry matches.
   */
  lemma LiteralSearchSelectsExactly(key: string, engine: string -> Pattern, names: seq<string>, dir: string, n: string)
    requires IsLiteralKey(key)
    ensures var r := Search(CompilePattern(key, engine), Entries(names), dir);
      && r.Success?
      && r.value == Matched(dir, names, name => LiteralMatches(key, name))
      && IsSubsequence(r.value, Paths(dir, names))
      && multiset(r.value)[EntryPath(dir, n)] == (if InSearchLanguage(key, n) then multiset(names)[n] else 0)
      && (r.value == [] <==> forall i :: 0 <= i < |names| ==> !InSearchLanguage(key, names[i]))
  {
    var literal := name => LiteralMatches(key, name);
    var p := CompilePattern(key, engine);
    assert Matched(dir, LogGlob(names), p.matches) == Matched(dir, LogGlob(names), literal) by {
      SameMatcherSameResult(dir, LogGlob(names), p.matches, literal);
    }
    GlobIsRedundant(dir, names, key);
    MatchedIsSubsequence(dir, names, literal);
    MatchedCount(dir, names, literal, n);
    LiteralMatchesIff(key, n);
    MatchedEmptyIff(dir, names, literal);
    forall i | 0 <= i < |names| ensures literal(names[i]) == InSearchLanguage(key, names[i]) {
      LiteralMatchesIff(key, names[i]);
    }
  }

  /** Two matchers that agree on every name keep the same entries. */
  lemma {:induction false} SameMatcherSameResult(dir: string, names: seq<string>, f: string -> bool, g: string -> bool)
    requires forall name :: f(name) == g(name)
    ensures Matched(dir, names, f) == Matched(dir, names, g)
    decreases |names|
  {
    if names != [] {
      SameMatcherSameResult(dir, names[1..], f, g);
    }
  }

  lemma DateKeyIsLiteral()
    ensures IsLiteralKey("2024-11-01")
  {
    assert IsDateShaped("2024-11-01");
    DateKeysAreLiteral("2024-11-01");
  }

  lemma DateKeyMatchesItsDay()
    ensures LiteralMatches("2024-11-01", "solar_2024-11-01.log")
  {
    var key, name := "2024-11-01", "solar_2024-11-01.log";
    assert name == "solar_" + key + "" + LogSuffix;
    assert FreeOfTerminators("solar_") && FreeOfTerminators("");
    LiteralMatchesIff(key, name);
  }

  lemma DateKeyMissesOtherDay()
    ensures !LiteralMatches("2024-11-01", "wind_2024-10-25.log")
  {
    var key, name, stem := "2024-11-01", "wind_2024-10-25.log", "wind_2024-10-25";
    assert name == stem + LogSuffix;
    assert HasLogSuffix(name) && Stem(name) == stem;
    OccursFromSomewhere(key, stem, 0);
    forall j | 0 <= j ensures !OccursAt(key, stem, j) {
      if j + |key| <= |stem| {
        if j < 5 {
          assert stem[j..j + |key|][0] == stem[j] != '2';
        } else {
          assert stem[j..j + |key|][6] == stem[11] == '0';
        }
      }
    }
  }

  lemma MatchedOfTwo(dir: string, a: string, b: string, matches: string -> bool)
    requires matches(a) && !matches(b)
    ensures Matched(dir, [a, b], matches) == [EntryPath(dir, a)]
  {
    assert [a, b][1..] == [b];
    assert [b][1..] == [];
  }

  lemma GlobOfTwo(a: string, b: string)
    requires HasLogSuffix(a) && HasLogSuffix(b)
    ensures LogGlob([a, b]) == [a, b]
  {
    assert [a, b][1..] == [b];
    assert [b][1..] == [];
    assert LogGlob([b]) == [b] + LogGlob([]);
  }

  /** A search for a date finds the log of that day and not the log of another. */
  lemma DateSearchExample(engine: string -> Pattern, dir: string)
    ensures Search(CompilePattern("2024-11-01", engine), Entries(["solar_2024-11-01.log", "wind_2024-10-25.log"]), dir)
         == Success([EntryPath(dir, "solar_2024-11-01.log")])
  {
    var key, solar, wind := "2024-11-01", "solar_2024-11-01.log", "wind_2024-10-25.log";
    DateKeyIsLiteral();
    var p := CompilePattern(key, engine);
    DateKeyMatchesItsDay();
    DateKeyMissesOtherDay();
    GlobOfTwo(solar, wind);
    MatchedOfTwo(dir, solar, wind, p.matches);
  }

  lemma EquipmentKeyMatchesItsLog()
    ensures IsLiteralKey("Turbine") && LiteralMatches("Turbine", "WindTurbine.log")
  {
    var key, wind := "Turbine", "WindTurbine.log";
    assert wind == "Wind" + key + "" + LogSuffix;
    assert FreeOfTerminators("Wind") && FreeOfTerminators("");
    LiteralMatchesIff(key, wind);
  }

  lemma EquipmentKeyMissesOtherLog()
    ensures !LiteralMatches("Turbine", "SolarPanel.log")
  {
    var key, solar, stem := "Turbine", "SolarPanel.log", "SolarPanel";
    assert solar == stem + LogSuffix;
    assert HasLogSuffix(solar) && Stem(solar) == stem;
    OccursFromSomewhere(key, stem, 0);
    forall j | 0 <= j ensures !OccursAt(key, stem, j) {
      if j + |key| <= |stem| {
        assert stem[j..j + |key|][0] == stem[j] != 'T';
      }
    }
  }

  /** A search for equipment finds the logs whose stem contains the name, and an empty hit list is a success. */
  lemma EquipmentSearchExample(engine: string -> Pattern, dir: string)
    ensures Search(CompilePattern("Turbine", engine), Entries(["WindTurbine.log", "SolarPanel.log"]), dir)
         == Success([EntryPath(dir, "WindTurbine.log")])
    ensures Search(CompilePattern("Turbine", engine), Entries(["SolarPanel.log"]), dir) == Success([])
  {
    var key, wind, solar := "Turbine", "WindTurbine.log", "SolarPanel.log";
    EquipmentKeyMatchesItsLog();
    EquipmentKeyMissesOtherLog();
    var p := CompilePattern(key, engine);
    GlobOfTwo(wind, solar);
    MatchedOfTwo(dir, wind, solar, p.matches);
    assert LogGlob([solar]) == [solar] + LogGlob([]);
    assert Matched(dir, [solar], p.matches) == [] + Matched(dir, [], p.matches);
  }

  /** The key `log` does not match `abc.log`: the final `.log` is not part of the searched stem. */
  lemma SuffixIsNotSearched(engine: string -> Pattern)
    ensures !CompilePattern("log", engine).matches("abc.log")
  {
    assert IsLiteralKey("log");
    assert "abc.log" == "abc" + LogSuffix;
    assert Stem("abc.log") == "abc";
    OccursFromSomewhere("log", "abc", 0);
    assert !OccursAt("log", "abc", 0) by {
      assert "abc"[0..3][0] == 'a';
    }
  }

  /** The metadata store, reduced to the search records it receives. */
  datatype SearchRecord = SearchRecord(key: string, description: string)

  class Metadata {
    var searches: seq<SearchRecord>

    constructor ()
      ensures searches == []
    {
      searches := [];
    }

    /** Record one search (`logSearch`). */
    method RecordSearch(key: string, description: string)
      modifies this
      ensures searches == old(searches) + [SearchRecord(key, description)]
    {
      searches := searches + [SearchRecord(key, description)];
    }
  }

  /** The audit description `run` ends up passing for its criterion. */
  function ModeDescription(key: string): string {
    if IsDateShaped(key) then DateDescription else EquipmentDescription
  }

  class LogSearcher {
    /** The resolved log directory, standing for `<home>/Documents/<logDirectory>`. */
    const logDirPath: string
    const metadata: Metadata
    const searchCriteria: string
    var searchResults: seq<string>

    constructor (logDirPath: string, metadata: Metadata, searchCriteria: string)
      ensures this.logDirPath == logDirPath && this.metadata == metadata
      ensures this.searchCriteria == searchCriteria && searchResults == []
    {
      this.logDirPath := logDirPath;
      this.metadata := metadata;
      this.searchCriteria := searchCriteria;
      searchResults := [];
    }

    /**
     * Classify the criterion, run the matching search and keep its result;
     * on a search error the previous results stay.
     */
    method Run(listing: Listing, engine: string -> Pattern)
      modifies this, metadata
      ensures var r := Search(CompilePattern(searchCriteria, engine), listing, logDirPath);
        && searchResults == (if r.Success? then r.value else old(searchResults))
        && metadata.searches == old(metadata.searches)
             + (if ReachesRecord(CompilePattern(searchCriteria, engine), listing)
                then [SearchRecord(searchCriteria, ModeDescription(searchCriteria))] else [])
    {
      var r;
      if IsDateShaped(searchCriteria) {
        r := SearchByDate(searchCriteria, listing, engine);
      } else {
        r := SearchByEquipment(searchCriteria, listing, engine);
      }
      if r.Success? {
        searchResults := r.value;
      }
    }

    method SearchByDate(date: string, listing: Listing, engine: string -> Pattern) returns (r: Result<seq<string>>)
      modifies metadata
      ensures r == Search(CompilePattern(date, engine), listing, logDirPath)
      ensures metadata.searches == old(metadata.searches)
        + (if ReachesRecord(CompilePattern(date, engine), listing) then [SearchRecord(date, DateDescription)] else [])
    {
      r := SearchAndRecord(date, DateDescription, listing, engine);
    }

    method SearchByEquipment(equipmentName: string, listing: Listing, engine: string -> Pattern) returns (r: Result<seq<string>>)
      modifies metadata
      ensures r == Search(CompilePattern(equipmentName, engine), listing, logDirPath)
      ensures metadata.searches == old(metadata.searches)
        + (if ReachesRecord(CompilePattern(equipmentName, engine), listing) then [SearchRecord(equipmentName, EquipmentDescription)] else [])
    {
      r := SearchAndRecord(equipmentName, EquipmentDescription, listing, engine);
    }

    /** The body both search methods share; only the audit description differs. */
    method SearchAndRecord(key: string, description: string, listing: Listing, engine: string -> Pattern)
      returns (r: Result<seq<string>>)
      modifies metadata
      ensures r == Search(CompilePattern(key, engine), listing, logDirPath)
      ensures metadata.searches == old(metadata.searches)
        + (if ReachesRecord(CompilePattern(key, engine), listing) then [SearchRecord(key, description)] else [])
    {
      var pattern := CompilePattern(key, engine);
      if pattern.SyntaxError? {
        return Failure(InvalidRegex);
      }
      match listing {
        case NoSuchDirectory => r := Failure(FileNotFound);
        case OpenFailure => r := Failure(ReadError);
        case IterationFailure => r := Failure(Unexpected);
        case Entries(names) =>
          var matchedFiles := CollectMatches(logDirPath, LogGlob(names), pattern.matches);
          metadata.RecordSearch(key, description);
          r := Success(matchedFiles);
        case CloseFailure(names) =>
          var matchedFiles := CollectMatches(logDirPath, LogGlob(names), pattern.matches);
          metadata.RecordSearch(key, description);
          r := Failure(ReadError);   // close() throws after the body, so the list is lost
      }
    }
  }

  /** For the same key and directory, the date search and the equipment search return the same list. */
  method SearchesAgree(searcher: LogSearcher, key: string, listing: Listing, engine: string -> Pattern)
    returns (byDate: Result<seq<string>>, byEquipment: Result<seq<string>>)
    modifies searcher.metadata
    ensures byDate == byEquipment
  {
    byDate := searcher.SearchByDate(key, listing, engine);
    byEquipment := searcher.SearchByEquipment(key, listing, engine);
  }
}
