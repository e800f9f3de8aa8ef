/**
 * Turning search results into launcher matches: `Runner::to_match` and
 * the take-ten pipeline of `matches`. The search itself (the index's
 * `query` and its scoring) is not modelled: its results are an input.
 */
module Matching {
  import opened Util
  import opened Strings
  import opened Actions
  import opened Catalog

  datatype MatchType = ExactMatch | PossibleMatch

  /**
   * One result of the index's query: the key of a document and its score.
   * The score is carried along and never inspected.
   */
  datatype QueryResult = QueryResult(key: nat, score: real)

  /** The fields of `krunner::Match` that the runner sets. */
  datatype Match = Match(
    id: string,
    text: string,
    subtext: string,
    icon: string,
    ty: MatchType,
    actions: seq<Action>,
    relevance: real)

  /** The icon of every match. */
  const Icon := "nix-snowflake"

  /** `matches` hands back at most this many matches. */
  const MaxMatches := 10

  /** The match title: the id, then the version in parentheses when there is one. */
  function Title(id: string, version: string): (t: string)
    ensures version == "" ==> t == "Nix: " + id
    ensures version != "" ==> t == "Nix: " + id + " (" + version + ")"
  {
    "Nix: " + id + (if version == "" then "" else " (" + version + ")")
  }

  /** For a given id, the title tells which version it shows. */
  lemma TitleDeterminesVersion(id: string, v1: string, v2: string)
    requires Title(id, v1) == Title(id, v2)
    ensures v1 == v2
  {
    var n := |"Nix: " + id + " ("|;
    if v1 != "" && v2 != "" {
      assert v1 == Title(id, v1)[n..|Title(id, v1)| - 1];
      assert v2 == Title(id, v2)[n..|Title(id, v2)| - 1];
    }
  }

  lemma TitleExamples()
    ensures Title("hello", "1.2.3") == "Nix: hello (1.2.3)"
    ensures Title("hello", "") == "Nix: hello"
  {
  }

  /**
   * The match for one query result, as `to_match` builds it from the
   * program the result's key selects.
   */
  function FormatMatch(runner: Runner, query: string, result: QueryResult): (m: Match)
    requires result.key < |runner.programs|
    ensures var p := runner.programs[result.key];
            && m.id == p.id
            && m.text == Title(p.id, p.version)
            && m.subtext == p.description
            && m.icon == Icon
            && (m.ty == ExactMatch <==> EqIgnoreAsciiCase(Trim(query), p.id))
            && m.actions == [Run, Shell]
            && m.relevance == result.score
  {
    var p := runner.programs[result.key];
    var ty := if EqIgnoreAsciiCase(Trim(query), p.id) then ExactMatch else PossibleMatch;
    Match(p.id, Title(p.id, p.version), p.description, Icon, ty, All(), result.score)
  }

  /**
   * `Runner::to_match`: builds the title step by step and attaches the
   * actions one at a time, as the source does.
   */
  method ToMatch(runner: Runner, query: string, result: QueryResult) returns (m: Match)
    requires result.key < |runner.programs|
    ensures m == FormatMatch(runner, query, result)
  {
    var p := runner.programs[result.key];
    var text := "Nix: " + p.id;
    if p.version != "" {
      text := text + " (";
      text := text + p.version;
      text := text + [')'];
    }
    var ty := if EqIgnoreAsciiCase(Trim(query), p.id) then ExactMatch else PossibleMatch;
    var actions: seq<Action> := [];
    actions := actions + [Run];
    actions := actions + [Shell];
    m := Match(p.id, text, p.description, Icon, ty, actions, result.score);
  }

  /**
   * A query that is the program id, in any ASCII letter case and with any
   * whitespace around it, is an exact match, provided the id itself has no
   * whitespace at its ends.
   */
  lemma ExactMatchForPaddedId(runner: Runner, result: QueryResult, before: string, typed: string, after: string)
    requires result.key < |runner.programs|
    requires var id := runner.programs[result.key].id;
             id == [] || (!IsWhitespace(id[0]) && !IsWhitespace(id[|id| - 1]))
    requires EqIgnoreAsciiCase(typed, runner.programs[result.key].id)
    requires forall k :: 0 <= k < |before| ==> IsWhitespace(before[k])
    requires forall k :: 0 <= k < |after| ==> IsWhitespace(after[k])
    ensures FormatMatch(runner, before + typed + after, result).ty == ExactMatch
  {
    var id := runner.programs[result.key].id;
    assert typed == [] || (!IsWhitespace(typed[0]) && !IsWhitespace(typed[|typed| - 1])) by {
      if typed != [] {
        assert AsciiLower(typed[0]) == AsciiLower(id[0]);
        assert AsciiLower(typed[|typed| - 1]) == AsciiLower(id[|id| - 1]);
      }
    }
    TrimOfPadded(before, typed, after);
  }

  /** A program whose id begins with whitespace is never an exact match. */
  lemma NoExactMatchForIdOpeningWithSpace(runner: Runner, query: string, result: QueryResult)
    requires result.key < |runner.programs|
    requires var id := runner.programs[result.key].id;
             id != [] && IsWhitespace(id[0])
    ensures FormatMatch(runner, query, result).ty == PossibleMatch
  {
  }

  /** `.map(|q| self.to_match(&query, q)).take(n)`: the formatted first `n` results, in order. */
  function TakeFormatted(runner: Runner, query: string, results: seq<QueryResult>, n: nat): (ms: seq<Match>)
    requires forall i :: 0 <= i < Min(n, |results|) ==> results[i].key < |runner.programs|
    ensures |ms| == Min(n, |results|)
    ensures forall i :: 0 <= i < |ms| ==> ms[i] == FormatMatch(runner, query, results[i])
  {
    if n == 0 || results == [] then []
    else
      assert Min(n, |results|) == 1 + Min(n - 1, |results| - 1);
      assert forall i :: 0 <= i < Min(n - 1, |results| - 1) ==> results[1..][i] == results[i + 1];
      [FormatMatch(runner, query, results[0])] + TakeFormatted(runner, query, results[1..], n - 1)
  }

  /**
   * `matches`: the first ten results the index produced, formatted, in the
   * index's order. Iteration is lazy, so only those ten need a valid key.
   */
  function Matches(runner: Runner, query: string, results: seq<QueryResult>): (ms: seq<Match>)
    requires forall i :: 0 <= i < Min(MaxMatches, |results|) ==> results[i].key < |runner.programs|
    ensures |ms| <= MaxMatches
    ensures |ms| == Min(MaxMatches, |results|)
    ensures forall i :: 0 <= i < |ms| ==> ms[i] == FormatMatch(runner, query, results[i])
  {
    TakeFormatted(runner, query, results, MaxMatches)
  }

  /** The key of some document registered with the index. */
  predicate Indexed(runner: Runner, key: nat)
  {
    exists k :: 0 <= k < |runner.index| && runner.index[k].key == key
  }

  /**
   * Results that name documents of the index select programs of a loaded
   * catalog, so `matches` never indexes past the program list.
   */
  lemma IndexedResultsAreFormattable(runner: Runner, results: seq<QueryResult>)
    requires Consistent(runner)
    requires forall i :: 0 <= i < |results| ==> Indexed(runner, results[i].key)
    ensures forall i :: 0 <= i < |results| ==> results[i].key < |runner.programs|
  {
  }
}
