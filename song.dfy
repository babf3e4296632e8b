/** `Song`: an artist, a title, a language and a streams count per country,
    kept in a hash map in which a country without an entry has 0 streams. */
module Songs {
  import opened Ordering
  import opened Strings

  datatype Language = EN | NL | DE | FR | SP | IT

  datatype Country = UK | NL | DE | BE | FR | SP | IT

  /** The name of a language constant, as its `toString` gives it. */
  function LanguageName(l: Language): (r: string)
    ensures |r| == 2
  {
    match l
    case EN => "EN"
    case NL => "NL"
    case DE => "DE"
    case FR => "FR"
    case SP => "SP"
    case IT => "IT"
  }

  /** Every country once, in declaration order. */
  function AllCountries(): (r: seq<Country>)
    ensures forall i, j :: 0 <= i < j < |r| ==> r[i] != r[j]
  {
    [Country.UK, Country.NL, Country.DE, Country.BE, Country.FR, Country.SP, Country.IT]
  }

  lemma AllCountriesComplete(c: Country)
    ensures c in AllCountries()
  {
    match c
    case UK => assert AllCountries()[0] == c;
    case NL => assert AllCountries()[1] == c;
    case DE => assert AllCountries()[2] == c;
    case BE => assert AllCountries()[3] == c;
    case FR => assert AllCountries()[4] == c;
    case SP => assert AllCountries()[5] == c;
    case IT => assert AllCountries()[6] == c;
  }

  /** `getOrDefault(country, 0)` on the streams map. */
  function StreamsOf(m: map<Country, int>, c: Country): int {
    if c in m then m[c] else 0
  }

  /** The streams of the countries of `s`. */
  function SumStreams(m: map<Country, int>, s: seq<Country>): int {
    if s == [] then 0 else SumStreams(m, s[..|s| - 1]) + StreamsOf(m, s[|s| - 1])
  }

  /** The streams of the countries of `s` that belong to `keys`. */
  function SumStreamsIn(m: map<Country, int>, s: seq<Country>, keys: set<Country>): int {
    if s == [] then 0
    else SumStreamsIn(m, s[..|s| - 1], keys) + (if s[|s| - 1] in keys then StreamsOf(m, s[|s| - 1]) else 0)
  }

  /** The total over all countries. */
  function StreamsTotal(m: map<Country, int>): int {
    SumStreams(m, AllCountries())
  }

  /** Counting one more country, which `s` holds at most once, adds its
      streams. */
  lemma {:induction false} SumStreamsInAdd(m: map<Country, int>, s: seq<Country>, keys: set<Country>, c: Country)
    requires c !in keys && forall i, j :: 0 <= i < j < |s| ==> s[i] != s[j]
    ensures SumStreamsIn(m, s, keys + {c}) == SumStreamsIn(m, s, keys) + (if c in s then StreamsOf(m, c) else 0)
  {
    if s != [] {
      var init := s[..|s| - 1];
      SumStreamsInAdd(m, init, keys, c);
      if s[|s| - 1] == c {
        assert c !in init;
      } else {
        assert c in s <==> c in init;
      }
    }
  }

  lemma {:induction false} SumStreamsInNone(m: map<Country, int>, s: seq<Country>)
    ensures SumStreamsIn(m, s, {}) == 0
  {
    if s != [] {
      SumStreamsInNone(m, s[..|s| - 1]);
    }
  }

  /** Leaving out only countries without streams does not change the sum. */
  lemma {:induction false} SumStreamsInAll(m: map<Country, int>, s: seq<Country>, keys: set<Country>)
    requires forall c :: c in s && c !in keys ==> StreamsOf(m, c) == 0
    ensures SumStreamsIn(m, s, keys) == SumStreams(m, s)
  {
    if s != [] {
      SumStreamsInAll(m, s[..|s| - 1], keys);
    }
  }

  /** Changing the count of one country, which `s` holds at most once, changes
      the sum by the difference. */
  lemma {:induction false} SumStreamsUpdate(m: map<Country, int>, s: seq<Country>, c: Country, n: int)
    requires forall i, j :: 0 <= i < j < |s| ==> s[i] != s[j]
    ensures SumStreams(m[c := n], s) == SumStreams(m, s) + (if c in s then n - StreamsOf(m, c) else 0)
  {
    if s != [] {
      var init := s[..|s| - 1];
      SumStreamsUpdate(m, init, c, n);
      if s[|s| - 1] == c {
        assert c !in init;
      } else {
        assert c in s <==> c in init;
      }
    }
  }

  /** A song without streams has total 0. */
  lemma {:induction false} SumStreamsEmpty(s: seq<Country>)
    ensures SumStreams(map[], s) == 0
  {
    if s != [] {
      SumStreamsEmpty(s[..|s| - 1]);
    }
  }

  class Song {
    const artist: string
    const title: string
    const language: Language
    var streamsPerCountry: map<Country, int>

    constructor (artist: string, title: string, language: Language)
      ensures this.artist == artist && this.title == title && this.language == language
      ensures streamsPerCountry == map[]
      ensures StreamsCountTotal() == 0
    {
      this.artist := artist;
      this.title := title;
      this.language := language;
      streamsPerCountry := map[];
      new;
      SumStreamsEmpty(AllCountries());
    }

    /** The total of all streams counts: what `getStreamsCountTotal` computes. */
    function StreamsCountTotal(): int
      reads this
    {
      StreamsTotal(streamsPerCountry)
    }

    /** `setStreamsCountOfCountry(country, streamsCount)`: the count of
        `country` becomes `streamsCount`, a later set overriding an earlier one;
        the other countries keep theirs and the total moves by the
        difference. */
    method SetStreamsCountOfCountry(country: Country, streamsCount: int)
      modifies this
      ensures streamsPerCountry == old(streamsPerCountry)[country := streamsCount]
      ensures GetStreamsCountOfCountry(country) == streamsCount
      ensures forall c :: c != country ==> GetStreamsCountOfCountry(c) == old(GetStreamsCountOfCountry(c))
      ensures StreamsCountTotal() == old(StreamsCountTotal()) - old(GetStreamsCountOfCountry(country)) + streamsCount
    {
      SumStreamsUpdate(streamsPerCountry, AllCountries(), country, streamsCount);
      streamsPerCountry := streamsPerCountry[country := streamsCount];
    }

    /** `getStreamsCountOfCountry(country)`: the stored count, or 0 for a
        country that was never set. */
    function GetStreamsCountOfCountry(country: Country): (r: int)
      reads this
      ensures country in streamsPerCountry ==> r == streamsPerCountry[country]
      ensures country !in streamsPerCountry ==> r == 0
    {
      StreamsOf(streamsPerCountry, country)
    }

    /** `getStreamsCountTotal()`: adds up the stored counts in the map's
        iteration order, which is arbitrary here; the sum is the total over
        all countries. */
    method GetStreamsCountTotal() returns (sum: int)
      ensures sum == StreamsCountTotal()
    {
      sum := 0;
      SumStreamsInNone(streamsPerCountry, AllCountries());
      var remaining := streamsPerCountry.Keys;
      ghost var done: set<Country> := {};
      while remaining != {}
        invariant remaining !! done && remaining + done == streamsPerCountry.Keys
        invariant sum == SumStreamsIn(streamsPerCountry, AllCountries(), done)
        decreases |remaining|
      {
        var country :| country in remaining;
        AllCountriesComplete(country);
        SumStreamsInAdd(streamsPerCountry, AllCountries(), done, country);
        sum := sum + streamsPerCountry[country];
        remaining := remaining - {country};
        done := done + {country};
      }
      SumStreamsInAll(streamsPerCountry, AllCountries(), done);
    }

    /** `compareByHighestStreamsCountTotal(other)`: the other total minus this
        one, so the song with more streams comes first. */
    function CompareByHighestStreamsCountTotal(other: Song): (r: int)
      reads this, other
      ensures r < 0 <==> StreamsCountTotal() > other.StreamsCountTotal()
      ensures r == 0 <==> StreamsCountTotal() == other.StreamsCountTotal()
      ensures r > 0 <==> StreamsCountTotal() < other.StreamsCountTotal()
    {
      other.StreamsCountTotal() - StreamsCountTotal()
    }

    /** `compareForDutchNationalChart(other)`: Dutch-language songs first,
        then by decreasing total. */
    function CompareForDutchNationalChart(other: Song): (r: int)
      reads this, other
      ensures language == Language.NL && other.language != Language.NL ==> r < 0
      ensures language != Language.NL && other.language == Language.NL ==> r > 0
      ensures (language == Language.NL) == (other.language == Language.NL) ==>
                Sign(r) == Sign(other.StreamsCountTotal() - StreamsCountTotal())
    {
      var dutchComp := BoolCompare(other.language == Language.NL, language == Language.NL);
      if dutchComp != 0 then dutchComp
      else IntCompare(other.StreamsCountTotal(), StreamsCountTotal())
    }

    /** `toString()`: "artist/title{language}(total)". */
    function ToString(): (r: string)
      reads this
    {
      artist + "/" + title + "{" + LanguageName(language) + "}" + "(" + IntToString(StreamsCountTotal()) + ")"
    }
  }

  /** The Dutch chart order puts a song level with itself and its sign is
      antisymmetric. */
  lemma DutchChartAntisymmetric(a: Song, b: Song)
    ensures a.CompareForDutchNationalChart(a) == 0
    ensures a.CompareForDutchNationalChart(b) == -b.CompareForDutchNationalChart(a)
    ensures a.CompareByHighestStreamsCountTotal(b) == -b.CompareByHighestStreamsCountTotal(a)
  {
  }

  /** The rendering of a song starts with its artist and title and ends with
      its total in parentheses, which reads back as the total. */
  lemma ToStringParts(song: Song)
    ensures var r := song.ToString();
            var digits := IntToString(song.StreamsCountTotal());
            && |r| > |digits| + 1
            && r[..|song.artist| + 1 + |song.title|] == song.artist + "/" + song.title
            && r[|r| - |digits| - 2] == '(' && r[|r| - 1] == ')'
            && r[|r| - |digits| - 1..|r| - 1] == digits
            && (song.StreamsCountTotal() >= 0 ==> DigitsValue(digits) == song.StreamsCountTotal())
  {
    var total := song.StreamsCountTotal();
    var digits := IntToString(total);
    var head := song.artist + "/" + song.title;
    var r := song.ToString();
    assert r == head + ("{" + LanguageName(song.language) + "}" + "(") + digits + ")";
    if total >= 0 {
      NatToStringValue(total);
    }
  }
}
