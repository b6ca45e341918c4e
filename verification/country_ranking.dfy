/** The fuzzy search of the country-code dropdown: every row of the country
    table is scored against the search term, and for a non-empty term the
    rows are ordered from best to worst match. The ranking is stated for any
    distance function, so it covers both the source's edit distance and the
    corrected one. */
module CountryRanking {
  import opened Text
  import opened EditDistance
  import opened StableSort

  /** One row of the country table: local name, English name, dialling code, flag. */
  datatype Country = Country(name: string, englishName: string, code: string, flag: string)

  /** One entry of the result list. The source writes the chosen display name
      back into `country.name`; here it is a field of the result instead and
      the table row is left untouched. */
  datatype Match = Match(country: Country, distance: real, useEnglishName: bool, displayName: string)

  /** A distance between the search term and a candidate string. */
  type DistanceFunction = (string, string) -> real

  /** The argument of the code prefix test, `searchTerm || "+" + searchTerm`:
      an empty term is falsy, so only then is the "+" alternative used. */
  function CodePrefix(search: string): (p: string)
    ensures search != [] ==> p == search
    ensures search == [] ==> p == "+"
  {
    if search != [] then search else "+" + search
  }

  /** The three prefix tests of the source; any one of them earns the 0.3
      factor. The empty search passes them all; otherwise the code test is a
      plain prefix test on the raw term. */
  function HasPrefixBonus(search: string, c: Country): (b: bool)
    ensures search == [] ==> b
    ensures search != [] ==>
              (b <==> Lower(search) <= Lower(c.englishName) || Lower(search) <= Lower(c.name) || search <= c.code)
  {
    assert Lower([]) == [];
    || StartsWith(Lower(c.englishName), Lower(search))
    || StartsWith(Lower(c.name), Lower(search))
    || StartsWith(c.code, CodePrefix(search))
  }

  /** The score of one table row. All three distances take the raw search term
      as their first argument; the names are lower-cased, the code is not. */
  function Score(dist: DistanceFunction, search: string, c: Country): (m: Match)
    ensures m.country == c
    ensures var local := dist(search, Lower(c.name));
            var english := dist(search, Lower(c.englishName));
            var code := dist(search, c.code);
            var best := Min3(english, local, code);
            && (HasPrefixBonus(search, c) ==> m.distance == 0.3 * best)
            && (!HasPrefixBonus(search, c) ==> m.distance == best)
            && (m.useEnglishName <==> english < local && english <= code)
    ensures m.displayName == if m.useEnglishName then c.englishName else c.name
  {
    var distanceLocalName := dist(search, Lower(c.name));
    var distanceEnglishName := dist(search, Lower(c.englishName));
    var matchesCode := dist(search, c.code);
    var distance := Min3(distanceEnglishName, distanceLocalName, matchesCode);
    var englishCountry :=
      if matchesCode < distanceEnglishName then false else distanceEnglishName < distanceLocalName;
    var scaled := if HasPrefixBonus(search, c) then distance * 0.3 else distance;
    Match(c, scaled, englishCountry, if englishCountry then c.englishName else c.name)
  }

  /** The English name is displayed only when it is the closest of the three
      candidates, strictly closer than the local name. */
  lemma EnglishNameShownOnlyWhenClosest(dist: DistanceFunction, search: string, c: Country)
    ensures var m := Score(dist, search, c);
            var local := dist(search, Lower(c.name));
            var english := dist(search, Lower(c.englishName));
            var code := dist(search, c.code);
            m.useEnglishName ==> english == Min3(english, local, code) && english < local
  {
  }

  /** For a non-empty search the code test is exactly `code.startsWith(search)`;
      for the empty search it is `code.startsWith("+")`. */
  lemma CodePrefixTest(search: string, c: Country)
    ensures search != [] ==> (StartsWith(c.code, CodePrefix(search)) <==> StartsWith(c.code, search))
    ensures search == [] ==> (StartsWith(c.code, CodePrefix(search)) <==> StartsWith(c.code, "+"))
  {
  }

  /** The empty search is a prefix of every name, so every row is scaled. */
  lemma EmptySearchAlwaysScaled(dist: DistanceFunction, c: Country)
    ensures HasPrefixBonus([], c)
    ensures Score(dist, [], c).distance == 0.3 * Min3(dist([], Lower(c.englishName)), dist([], Lower(c.name)), dist([], c.code))
  {
    assert Lower([]) == [];
  }

  /** The scored table, in table order. */
  function Scores(dist: DistanceFunction, search: string, table: seq<Country>): (ms: seq<Match>)
    ensures |ms| == |table|
    ensures forall i :: 0 <= i < |table| ==> ms[i] == Score(dist, search, table[i])
  {
    seq(|table|, i requires 0 <= i < |table| => Score(dist, search, table[i]))
  }

  function DistanceOf(m: Match): real
  {
    m.distance
  }

  /** The country rows of a result list. */
  function Countries(ms: seq<Match>): (cs: seq<Country>)
    ensures |cs| == |ms|
    ensures forall i :: 0 <= i < |ms| ==> cs[i] == ms[i].country
  {
    seq(|ms|, i requires 0 <= i < |ms| => ms[i].country)
  }

  /** The list the dropdown renders: every row scored, then sorted by distance
      when the search is non-empty. The source also computes `slice(0, 3)` and
      drops the result, so the list keeps every row. */
  function RankWith(dist: DistanceFunction, search: string, table: seq<Country>): (r: seq<Match>)
    ensures |r| == |table|
    ensures multiset(r) == multiset(Scores(dist, search, table))
    ensures search == [] ==> forall i :: 0 <= i < |r| ==> r[i] == Score(dist, search, table[i])
    ensures search != [] ==> SortedBy(r, DistanceOf)
  {
    var filteredCountries := Scores(dist, search, table);
    if |search| != 0 then SortBy(filteredCountries, DistanceOf) else filteredCountries
  }

  /** The ranking exactly as the source computes it: every table row once,
      each entry its own row's score, ascending for a non-empty search and in
      table order for the empty one. */
  function RankAsWritten(search: string, table: seq<Country>): (r: seq<Match>)
    ensures |r| == |table|
    ensures multiset(Countries(r)) == multiset(table)
    ensures forall i :: 0 <= i < |r| ==> r[i] == Score(Distance, search, r[i].country)
    ensures search == [] ==> Countries(r) == table
    ensures search != [] ==> SortedBy(r, DistanceOf)
  {
    RankProperties(Distance, search, table);
    RankWith(Distance, search, table)
  }

  /** The ranking with the corrected edit distance, with the same guarantees. */
  function Rank(search: string, table: seq<Country>): (r: seq<Match>)
    ensures |r| == |table|
    ensures multiset(Countries(r)) == multiset(table)
    ensures forall i :: 0 <= i < |r| ==> r[i] == Score(CorrectedDistance, search, r[i].country)
    ensures search == [] ==> Countries(r) == table
    ensures search != [] ==> SortedBy(r, DistanceOf)
  {
    RankProperties(CorrectedDistance, search, table);
    RankWith(CorrectedDistance, search, table)
  }

  /** For a non-empty search, rows with equal distance keep their table order. */
  lemma RankTiesKeepTableOrder(dist: DistanceFunction, search: string, table: seq<Country>, k: real)
    requires search != []
    ensures WithKey(RankWith(dist, search, table), DistanceOf, k) == WithKey(Scores(dist, search, table), DistanceOf, k)
  {
    SortByIsStable(Scores(dist, search, table), DistanceOf, k);
  }

  /** Every entry of the result is the score of its own country row. */
  lemma EveryEntryIsItsRowsScore(dist: DistanceFunction, search: string, table: seq<Country>)
    ensures var r := RankWith(dist, search, table);
            forall i :: 0 <= i < |r| ==> r[i] == Score(dist, search, r[i].country)
  {
    var r := RankWith(dist, search, table);
    var scores := Scores(dist, search, table);
    forall i | 0 <= i < |r|
      ensures r[i] == Score(dist, search, r[i].country)
    {
      assert r[i] in multiset(scores);
      var j :| 0 <= j < |scores| && scores[j] == r[i];
    }
  }

  lemma CountriesAppend(x: seq<Match>, y: seq<Match>)
    ensures Countries(x + y) == Countries(x) + Countries(y)
  {
  }

  /** Taking element `j` out of `b` takes its country out of `Countries(b)`. */
  lemma CountriesWithout(b: seq<Match>, j: nat)
    requires j < |b|
    ensures multiset(Countries(b)) == multiset(Countries(b[..j] + b[j + 1..])) + multiset{b[j].country}
  {
    var front, back := b[..j], b[j + 1..];
    assert b == front + [b[j]] + back;
    CountriesAppend(front + [b[j]], back);
    CountriesAppend(front, [b[j]]);
    CountriesAppend(front, back);
  }

  lemma {:induction false} CountriesOfPermutation(a: seq<Match>, b: seq<Match>)
    requires multiset(a) == multiset(b)
    ensures multiset(Countries(a)) == multiset(Countries(b))
    decreases |a|
  {
    if a == [] {
      assert |b| == |multiset(b)| == 0;
    } else {
      var x := a[|a| - 1];
      var init := a[..|a| - 1];
      assert x in multiset(b);
      var j :| 0 <= j < |b| && b[j] == x;
      var rest := b[..j] + b[j + 1..];
      assert multiset(init) == multiset(rest) by {
        assert a == init + [x];
        assert b == b[..j] + [x] + b[j + 1..];
        assert multiset(init) == multiset(a) - multiset{x};
        assert multiset(rest) == multiset(b) - multiset{x};
      }
      CountriesOfPermutation(init, rest);
      CountriesWithout(b, j);
      CountriesWithout(a, |a| - 1);
      assert a[..|a| - 1] + a[|a|..] == init;
    }
  }

  /** The result holds every table row exactly as often as the table does. */
  lemma RankPermutesTable(dist: DistanceFunction, search: string, table: seq<Country>)
    ensures multiset(Countries(RankWith(dist, search, table))) == multiset(table)
  {
    var scores := Scores(dist, search, table);
    CountriesOfPermutation(RankWith(dist, search, table), scores);
    assert Countries(scores) == table;
  }

  /** The guarantees `RankAsWritten` and `Rank` share, for any distance. */
  lemma RankProperties(dist: DistanceFunction, search: string, table: seq<Country>)
    ensures var r := RankWith(dist, search, table);
            && multiset(Countries(r)) == multiset(table)
            && (forall i :: 0 <= i < |r| ==> r[i] == Score(dist, search, r[i].country))
            && (search == [] ==> Countries(r) == table)
  {
    RankPermutesTable(dist, search, table);
    EveryEntryIsItsRowsScore(dist, search, table);
  }
}
