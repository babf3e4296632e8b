/** `SongComparator`: the chart order used by the sorters, by decreasing total
    streams and, between equal totals, Dutch-language songs first. */
module SongComparators {
  import opened Ordering
  import opened Songs

  predicate IsDutch(song: Song) {
    song.language == Language.NL
  }

  /** `compare(song1, song2)`: the difference of the totals when they differ,
      otherwise `Boolean.compare` of the Dutch flags, otherwise
      `Integer.compare` of the (then equal) totals. */
  function Compare(song1: Song, song2: Song): (r: int)
    reads song1, song2
    ensures r < 0 <==>
              || song1.StreamsCountTotal() > song2.StreamsCountTotal()
              || (song1.StreamsCountTotal() == song2.StreamsCountTotal() && IsDutch(song1) && !IsDutch(song2))
    ensures r == 0 <==> song1.StreamsCountTotal() == song2.StreamsCountTotal() && IsDutch(song1) == IsDutch(song2)
  {
    var totalStreamsComparison := song2.StreamsCountTotal() - song1.StreamsCountTotal();
    if totalStreamsComparison != 0 then totalStreamsComparison
    else
      var dutchComparison := BoolCompare(IsDutch(song2), IsDutch(song1));
      if dutchComparison != 0 then dutchComparison
      else IntCompare(song2.StreamsCountTotal(), song1.StreamsCountTotal())
  }

  /** A song is level with itself, and swapping the songs flips the sign. */
  lemma CompareAntisymmetric(a: Song, b: Song)
    ensures Compare(a, a) == 0
    ensures Sign(Compare(a, b)) == -Sign(Compare(b, a))
  {
  }

  /** "Not after" is transitive, so the order is a total preorder that a
      sort can rely on. */
  lemma CompareTransitive(a: Song, b: Song, c: Song)
    requires Compare(a, b) <= 0 && Compare(b, c) <= 0
    ensures Compare(a, c) <= 0
  {
  }
}
