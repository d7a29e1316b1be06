/** The numeric part of createPieChart: which options get a slice and in what
    order, the arc of each slice in degrees, the colour of each slice, the
    colour squares of the legend, and the cache rule keyed by the vote count.
    Drawing and image encoding are not modelled; a slice is its option, its two
    angles and its colour. */
module PieChart {
  import opened Records
  import opened Polls

  datatype Rgb = Rgb(red: int, green: int, blue: int)

  /** The seven base colours, before the shuffle. */
  const BaseColours: seq<Rgb> := [
    Rgb(0xE8, 0x96, 0x3F), Rgb(0xAD, 0x3F, 0xE8), Rgb(0x3F, 0xE8, 0x6F), Rgb(0xE8, 0xE3, 0x3F),
    Rgb(0x3F, 0x64, 0xEB), Rgb(0xE8, 0x3F, 0x65), Rgb(0x3F, 0xE8, 0xDB)]

  predicate ChannelsBelowWhite(c: Rgb) {
    0 <= c.red < 255 && 0 <= c.green < 255 && 0 <= c.blue < 255
  }

  /** The palette the layout may be given: as many colours as the base palette,
      none of them white in any channel. */
  predicate ValidPalette(palette: seq<Rgb>) {
    |palette| == |BaseColours| && forall j :: 0 <= j < |palette| ==> ChannelsBelowWhite(palette[j])
  }

  /** Every shuffle of the base palette is a valid palette. */
  lemma ShuffledPaletteValid(palette: seq<Rgb>)
    requires multiset(palette) == multiset(BaseColours)
    ensures ValidPalette(palette)
  {
    assert |palette| == |multiset(palette)| == |multiset(BaseColours)| == |BaseColours|;
    forall j | 0 <= j < |palette| ensures ChannelsBelowWhite(palette[j]) {
      assert palette[j] in multiset(palette);
      assert palette[j] in BaseColours;
    }
  }

  // ------------------------------------------------------------- tallies

  datatype Tally = Tally(optionId: OptionId, voteCount: nat)

  /** The poll's options, in order, each with its vote count. */
  function Tallies(options: seq<PollOption>, votes: seq<PollVote>): seq<Tally> {
    seq(|options|, k requires 0 <= k < |options| => Tally(options[k].id, VoteCount(votes, options[k].id)))
  }

  predicate SortedDesc(ts: seq<Tally>) {
    forall i, j :: 0 <= i < j < |ts| ==> ts[i].voteCount >= ts[j].voteCount
  }

  /** Inserts t into a list sorted by descending vote count, before the first
      entry it is not below. */
  function Insert(t: Tally, ts: seq<Tally>): seq<Tally> {
    if ts == [] || t.voteCount >= ts[0].voteCount then [t] + ts
    else [ts[0]] + Insert(t, ts[1..])
  }

  lemma {:induction false} InsertSpec(t: Tally, ts: seq<Tally>)
    requires SortedDesc(ts)
    ensures SortedDesc(Insert(t, ts))
    ensures multiset(Insert(t, ts)) == multiset(ts) + multiset{t}
  {
    if ts != [] && t.voteCount < ts[0].voteCount {
      assert ts == [ts[0]] + ts[1..];
      InsertSpec(t, ts[1..]);
      var rest := Insert(t, ts[1..]);
      forall j | 0 <= j < |rest| ensures rest[j].voteCount <= ts[0].voteCount {
        assert rest[j] in multiset(rest);
        if rest[j] != t {
          assert rest[j] in ts[1..];
        }
      }
    }
  }

  /** sortByDesc on vote_count: an ordering by descending vote count of the
      same tallies. */
  function SortByDesc(ts: seq<Tally>): (r: seq<Tally>)
    ensures SortedDesc(r)
    ensures multiset(r) == multiset(ts)
  {
    if ts == [] then []
    else
      assert ts == [ts[0]] + ts[1..];
      var sorted := SortByDesc(ts[1..]);
      InsertSpec(ts[0], sorted);
      Insert(ts[0], sorted)
  }

  /** The filter on vote_count > 0, keeping the order. */
  function NonZero(ts: seq<Tally>): (r: seq<Tally>)
    ensures forall t :: multiset(r)[t] == if t.voteCount > 0 then multiset(ts)[t] else 0
  {
    if ts == [] then []
    else
      assert ts == [ts[0]] + ts[1..];
      (if ts[0].voteCount > 0 then [ts[0]] else []) + NonZero(ts[1..])
  }

  /** Filtering keeps a subsequence, so it keeps the descending order. */
  lemma {:induction false} NonZeroSorted(ts: seq<Tally>)
    requires SortedDesc(ts)
    ensures SortedDesc(NonZero(ts))
  {
    if ts != [] {
      NonZeroSorted(ts[1..]);
      var rest := NonZero(ts[1..]);
      forall j | 0 <= j < |rest| ensures ts[0].voteCount >= rest[j].voteCount {
        assert rest[j] in multiset(rest);
        assert rest[j] in ts[1..];
      }
    }
  }

  /** The tallies that get a slice, in slice order. */
  function PlottedTallies(options: seq<PollOption>, votes: seq<PollVote>): seq<Tally> {
    NonZero(SortByDesc(Tallies(options, votes)))
  }

  /** Each plotted tally is a positive share of the poll's votes. */
  predicate Plottable(ts: seq<Tally>, total: nat) {
    forall k :: 0 <= k < |ts| ==> 0 < ts[k].voteCount <= total
  }

  lemma PlottedTalliesPlottable(options: seq<PollOption>, votes: seq<PollVote>)
    ensures Plottable(PlottedTallies(options, votes), |votes|)
  {
    var tallies := Tallies(options, votes);
    var plotted := PlottedTallies(options, votes);
    forall k | 0 <= k < |plotted| ensures 0 < plotted[k].voteCount <= |votes| {
      assert plotted[k] in multiset(plotted);
      assert plotted[k] in multiset(SortByDesc(tallies));
      assert plotted[k] in tallies;
    }
  }

  /** Only options with votes get a slice, each as often as it is an option of
      the poll, in descending order of vote count. */
  lemma PlottedTalliesSpec(options: seq<PollOption>, votes: seq<PollVote>)
    ensures SortedDesc(PlottedTallies(options, votes))
    ensures forall t :: multiset(PlottedTallies(options, votes))[t] ==
                          if t.voteCount > 0 then multiset(Tallies(options, votes))[t] else 0
  {
    NonZeroSorted(SortByDesc(Tallies(options, votes)));
  }

  /** The sum of the vote counts of a list of tallies. */
  function TotalVotes(ts: seq<Tally>): nat {
    if ts == [] then 0 else ts[0].voteCount + TotalVotes(ts[1..])
  }

  lemma {:induction false} TotalVotesInsert(t: Tally, ts: seq<Tally>)
    ensures TotalVotes(Insert(t, ts)) == t.voteCount + TotalVotes(ts)
  {
    if ts != [] && t.voteCount < ts[0].voteCount {
      TotalVotesInsert(t, ts[1..]);
      assert ([ts[0]] + Insert(t, ts[1..]))[1..] == Insert(t, ts[1..]);
    } else {
      assert ([t] + ts)[1..] == ts;
    }
  }

  /** Sorting keeps the sum of the counts. */
  lemma {:induction false} TotalVotesSortByDesc(ts: seq<Tally>)
    ensures TotalVotes(SortByDesc(ts)) == TotalVotes(ts)
  {
    if ts != [] {
      TotalVotesSortByDesc(ts[1..]);
      TotalVotesInsert(ts[0], SortByDesc(ts[1..]));
    }
  }

  /** Dropping the zero counts keeps the sum of the counts. */
  lemma {:induction false} TotalVotesNonZero(ts: seq<Tally>)
    ensures TotalVotes(NonZero(ts)) == TotalVotes(ts)
  {
    if ts != [] {
      TotalVotesNonZero(ts[1..]);
      var rest := NonZero(ts[1..]);
      if ts[0].voteCount > 0 {
        assert ([ts[0]] + rest)[1..] == rest;
      } else {
        assert [] + rest == rest;
      }
    }
  }

  /** The vote counts of a list of options, summed option by option. */
  function OptionVotes(options: seq<PollOption>, votes: seq<PollVote>): nat {
    if options == [] then 0 else VoteCount(votes, options[0].id) + OptionVotes(options[1..], votes)
  }

  lemma {:induction false} TotalVotesTallies(options: seq<PollOption>, votes: seq<PollVote>)
    ensures TotalVotes(Tallies(options, votes)) == OptionVotes(options, votes)
  {
    if options != [] {
      TotalVotesTallies(options[1..], votes);
      assert Tallies(options, votes)[1..] == Tallies(options[1..], votes);
    }
  }

  /** How many options carry the id. */
  function IdHits(options: seq<PollOption>, optionId: OptionId): nat {
    if options == [] then 0 else (if options[0].id == optionId then 1 else 0) + IdHits(options[1..], optionId)
  }

  lemma {:induction false} OptionVotesNoVotes(options: seq<PollOption>)
    ensures OptionVotes(options, []) == 0
  {
    if options != [] {
      OptionVotesNoVotes(options[1..]);
    }
  }

  /** One more vote adds one to the sum for every option carrying its id. */
  lemma {:induction false} OptionVotesCons(options: seq<PollOption>, v: PollVote, rest: seq<PollVote>)
    ensures OptionVotes(options, [v] + rest) == OptionVotes(options, rest) + IdHits(options, v.optionId)
  {
    assert ([v] + rest)[1..] == rest;
    if options != [] {
      OptionVotesCons(options[1..], v, rest);
    }
  }

  /** With distinct ids, an id is carried by one option or by none. */
  lemma {:induction false} IdHitsDistinct(options: seq<PollOption>, optionId: OptionId)
    requires DistinctOptionIds(options)
    ensures IdHits(options, optionId) == if NamesOption(options, optionId) then 1 else 0
  {
    if options != [] {
      var tail := options[1..];
      assert forall i :: 0 <= i < |tail| ==> tail[i] == options[i + 1];
      IdHitsDistinct(tail, optionId);
      if NamesOption(options, optionId) && options[0].id != optionId {
        var i :| 0 <= i < |options| && options[i].id == optionId;
        assert tail[i - 1].id == optionId;
      }
    }
  }

  /** With distinct option ids the options' counts add up to at most the
      number of votes, and to exactly that number when every vote is for one
      of the options. */
  lemma {:induction false} OptionVotesBound(options: seq<PollOption>, votes: seq<PollVote>)
    requires DistinctOptionIds(options)
    ensures OptionVotes(options, votes) <= |votes|
    ensures VotesNameOptions(options, votes) ==> OptionVotes(options, votes) == |votes|
  {
    if votes == [] {
      OptionVotesNoVotes(options);
    } else {
      var rest := votes[1..];
      assert votes == [votes[0]] + rest;
      OptionVotesCons(options, votes[0], rest);
      IdHitsDistinct(options, votes[0].optionId);
      OptionVotesBound(options, rest);
      if VotesNameOptions(options, votes) {
        assert forall k :: 0 <= k < |rest| ==> rest[k] == votes[k + 1];
        assert VotesNameOptions(options, rest);
        assert NamesOption(options, votes[0].optionId);
      }
    }
  }

  /** The plotted counts add up to at most the poll's vote count when option
      ids are distinct, and to exactly it when every vote is for one of the
      options: the slices share out the whole circle. */
  lemma PlottedTalliesTotal(options: seq<PollOption>, votes: seq<PollVote>)
    requires DistinctOptionIds(options)
    ensures TotalVotes(PlottedTallies(options, votes)) <= |votes|
    ensures VotesNameOptions(options, votes) ==> TotalVotes(PlottedTallies(options, votes)) == |votes|
  {
    TotalVotesNonZero(SortByDesc(Tallies(options, votes)));
    TotalVotesSortByDesc(Tallies(options, votes));
    TotalVotesTallies(options, votes);
    OptionVotesBound(options, votes);
  }

  /** For a consistent poll, the plotted counts are exactly its votes. */
  lemma PollPlottedTotal(p: Poll)
    requires p.Valid()
    ensures TotalVotes(PlottedTallies(p.options, p.votes)) == |p.votes|
  {
    PlottedTalliesTotal(p.options, p.votes);
  }

  /** A poll without votes gets no slice at all. */
  lemma NoVotesNoSlices(options: seq<PollOption>, votes: seq<PollVote>)
    requires votes == []
    ensures PlottedTallies(options, votes) == []
  {
    var tallies := Tallies(options, votes);
    var plotted := PlottedTallies(options, votes);
    PlottedTalliesSpec(options, votes);
    assert forall k :: 0 <= k < |tallies| ==> tallies[k].voteCount == 0;
    forall t: Tally ensures multiset(plotted)[t] == 0 {
      if t.voteCount > 0 {
        assert t !in tallies;
      }
    }
    assert multiset(plotted) == multiset{};
  }

  // ---------------------------------------------------------------- arcs

  function Min(a: int, b: int): int {
    if a <= b then a else b
  }

  /** The share v of total in whole degrees, rounded half up, in exact arithmetic. */
  function Degrees(v: nat, total: nat): (d: nat)
    requires total > 0
    ensures 2 * total * d <= 720 * v + total < 2 * total * (d + 1)
    ensures v <= total ==> d <= 360
  {
    RoundHalfUpBounds(v, total);
    (720 * v + total) / (2 * total)
  }

  lemma RoundHalfUpBounds(v: nat, total: nat)
    requires total > 0
    ensures var d := (720 * v + total) / (2 * total);
            2 * total * d <= 720 * v + total < 2 * total * (d + 1) &&
            (v <= total ==> d <= 360)
  {
    var a := 720 * v + total;
    var b := 2 * total;
    var d := a / b;
    assert a == b * d + a % b && 0 <= a % b < b;
    assert b * (d + 1) == b * d + b;
    if v <= total && d > 360 {
      MulMonotone(b, 361, d);
    }
  }

  lemma MulMonotone(b: int, x: int, y: int)
    requires b >= 0 && x <= y
    ensures b * x <= b * y
  {
    assert b * y - b * x == b * (y - x);
  }

  /** The start angle of slice k: 0 for the first, then the previous start
      plus the previous span, clamped to 360. */
  function StartAt(ts: seq<Tally>, total: nat, k: nat): (s: int)
    requires Plottable(ts, total) && k <= |ts|
    ensures 0 <= s <= 360
  {
    if k == 0 then 0
    else Min(StartAt(ts, total, k - 1) + Degrees(ts[k - 1].voteCount, total), 360)
  }

  /** A later slice never starts before an earlier one. */
  lemma {:induction false} StartAtMonotone(ts: seq<Tally>, total: nat, i: nat, j: nat)
    requires Plottable(ts, total) && i <= j <= |ts|
    ensures StartAt(ts, total, i) <= StartAt(ts, total, j)
  {
    if i < j {
      StartAtMonotone(ts, total, i, j - 1);
    }
  }

  // -------------------------------------------------------------- colours

  /** Colour channel j of slice i among n: the base channel, lightened towards
      255 by the fraction floor(i/size) / (floor(n/size) + 1); PHP computes the
      quotient in floats and truncates it when allocating the colour. */
  function Channel(base: int, i: nat, n: nat, size: nat): (c: int)
    requires 0 <= base < 255 && 0 < size && i < n
    ensures base <= c < 255
    ensures i < size ==> c == base
  {
    var a := 255 - base;
    var q := i / size;
    var m := n / size + 1;
    DivMonotone(i, n, size);
    ScaledFractionBelow(a, q, m);
    base + a * q / m
  }

  lemma DivMonotone(i: nat, n: nat, size: nat)
    requires 0 < size && i <= n
    ensures i / size <= n / size
  {
    var qi, qn := i / size, n / size;
    assert i == size * qi + i % size;
    assert n == size * qn + n % size;
    if qi > qn {
      MulMonotone(size, qn + 1, qi);
    }
  }

  /** 0 <= a * q / m < a when 0 <= q < m. */
  lemma ScaledFractionBelow(a: nat, q: nat, m: nat)
    requires 0 < a && q < m
    ensures 0 <= a * q / m < a
  {
    var p := a * q;
    MulMonotone(a, q, m - 1);
    assert a * (m - 1) == a * m - a;
    var d := p / m;
    assert p == m * d + p % m && 0 <= p % m < m;
    if d >= a {
      MulMonotone(m, a, d);
    }
  }

  /** The colour of slice i among n: palette[i mod 7], lightened per cycle. */
  function SliceColour(palette: seq<Rgb>, i: nat, n: nat): Rgb
    requires ValidPalette(palette) && i < n
  {
    var base := palette[i % |palette|];
    Rgb(Channel(base.red, i, n, |palette|), Channel(base.green, i, n, |palette|), Channel(base.blue, i, n, |palette|))
  }

  /** Each channel of a slice colour lies between the palette colour's channel
      and 255 (excluded), and the first seven slices get the palette colours
      themselves. */
  lemma SliceColourBounds(palette: seq<Rgb>, i: nat, n: nat)
    requires ValidPalette(palette) && i < n
    ensures var base, c := palette[i % 7], SliceColour(palette, i, n);
            base.red <= c.red < 255 && base.green <= c.green < 255 && base.blue <= c.blue < 255
    ensures i < 7 ==> SliceColour(palette, i, n) == palette[i]
  {
  }

  // --------------------------------------------------------------- layout

  datatype Slice = Slice(optionId: OptionId, startDegrees: int, endDegrees: int, colour: Rgb)

  /** The slices of the chart for the given plotted tallies, in order. */
  function Layout(ts: seq<Tally>, total: nat, palette: seq<Rgb>): seq<Slice>
    requires Plottable(ts, total) && ValidPalette(palette)
  {
    seq(|ts|, k requires 0 <= k < |ts| =>
      Slice(ts[k].optionId, StartAt(ts, total, k), StartAt(ts, total, k + 1), SliceColour(palette, k, |ts|)))
  }

  /** The arcs lie consecutively from 0 degrees: each slice starts where the
      previous one ended, spans round(v/total*360) degrees with its end clamped
      to 360, and every angle lies in [0, 360] without decreasing. */
  lemma LayoutArcs(ts: seq<Tally>, total: nat, palette: seq<Rgb>)
    requires Plottable(ts, total) && ValidPalette(palette)
    ensures var r := Layout(ts, total, palette);
            |r| == |ts| &&
            (r != [] ==> r[0].startDegrees == 0) &&
            (forall k :: 0 <= k < |r| ==>
               r[k].optionId == ts[k].optionId &&
               r[k].endDegrees == Min(r[k].startDegrees + Degrees(ts[k].voteCount, total), 360) &&
               0 <= r[k].startDegrees <= r[k].endDegrees <= 360) &&
            (forall k :: 0 < k < |r| ==> r[k].startDegrees == r[k - 1].endDegrees)
  {
  }

  /** Angles never decrease along the chart. */
  lemma LayoutNonDecreasing(ts: seq<Tally>, total: nat, palette: seq<Rgb>, i: nat, j: nat)
    requires Plottable(ts, total) && ValidPalette(palette) && i <= j < |ts|
    ensures var r := Layout(ts, total, palette);
            r[i].startDegrees <= r[j].startDegrees && r[i].endDegrees <= r[j].endDegrees
  {
    StartAtMonotone(ts, total, i, j);
    StartAtMonotone(ts, total, i + 1, j + 1);
  }

  /** Tallies of 6, 3 and 1 out of 10 votes give spans of 216, 108 and 36
      degrees, from 0. */
  lemma LayoutExample(palette: seq<Rgb>)
    requires ValidPalette(palette)
    ensures var r := Layout([Tally(1, 6), Tally(2, 3), Tally(3, 1)], 10, palette);
            |r| == 3 &&
            r[0].startDegrees == 0 && r[0].endDegrees == 216 &&
            r[1].startDegrees == 216 && r[1].endDegrees == 324 &&
            r[2].startDegrees == 324 && r[2].endDegrees == 360
  {
    var ts := [Tally(1, 6), Tally(2, 3), Tally(3, 1)];
    assert Degrees(6, 10) == 216 && Degrees(3, 10) == 108 && Degrees(1, 10) == 36;
    assert StartAt(ts, 10, 1) == 216;
    assert StartAt(ts, 10, 2) == 324;
    assert StartAt(ts, 10, 3) == 360;
  }

  /** The chart of a poll: its plotted tallies laid out against its vote count. */
  function ChartSlices(options: seq<PollOption>, votes: seq<PollVote>, palette: seq<Rgb>): seq<Slice>
    requires ValidPalette(palette)
  {
    PlottedTalliesPlottable(options, votes);
    Layout(PlottedTallies(options, votes), |votes|, palette)
  }

  /** The legend squares: per option id the colour of its legend square, filled
      in slice order. */
  function SwatchMap(slices: seq<Slice>): map<OptionId, Rgb> {
    if slices == [] then map[]
    else
      var last := slices[|slices| - 1];
      SwatchMap(slices[..|slices| - 1])[last.optionId := last.colour]
  }

  lemma SwatchMapAppend(slices: seq<Slice>, slice: Slice)
    ensures SwatchMap(slices + [slice]) == SwatchMap(slices)[slice.optionId := slice.colour]
  {
    assert (slices + [slice])[..|slices|] == slices;
  }

  /** Every slice's option has a square, every square has the colour of a
      slice of its option, and that slice is the last one of the option: a
      later slice of the same option overwrites an earlier one. */
  lemma {:induction false} SwatchMapSpec(slices: seq<Slice>)
    ensures forall k :: 0 <= k < |slices| ==> slices[k].optionId in SwatchMap(slices)
    ensures forall id :: id in SwatchMap(slices) ==>
              exists k :: 0 <= k < |slices| && slices[k].optionId == id && SwatchMap(slices)[id] == slices[k].colour
    ensures forall k ::
              (0 <= k < |slices| && forall j :: k < j < |slices| ==> slices[j].optionId != slices[k].optionId) ==>
                SwatchMap(slices)[slices[k].optionId] == slices[k].colour
  {
    if slices != [] {
      var init := slices[..|slices| - 1];
      SwatchMapSpec(init);
      assert forall k :: 0 <= k < |init| ==> init[k] == slices[k];
    }
  }

  /** The for loop of createPieChart: walks the plotted tallies, computing each
      slice's end from its start and span, its colour, and its legend square,
      and moves the start to the end. */
  method LayOutSlices(nonZero: seq<Tally>, total: nat, palette: seq<Rgb>)
    returns (slices: seq<Slice>, colourSquares: map<OptionId, Rgb>)
    requires Plottable(nonZero, total) && ValidPalette(palette)
    ensures slices == Layout(nonZero, total, palette)
    ensures colourSquares == SwatchMap(slices)
  {
    var startDegrees := 0;
    slices, colourSquares := [], map[];
    ghost var layout := Layout(nonZero, total, palette);
    for i := 0 to |nonZero|
      invariant startDegrees == StartAt(nonZero, total, i)
      invariant |slices| == i && forall k :: 0 <= k < i ==> slices[k] == layout[k]
      invariant colourSquares == SwatchMap(slices)
    {
      var option := nonZero[i];
      var degrees := Degrees(option.voteCount, total);
      var endDegrees := Min(startDegrees + degrees, 360);
      var colour := SliceColour(palette, i, |nonZero|);
      var slice := Slice(option.optionId, startDegrees, endDegrees, colour);
      assert slice == layout[i];
      SwatchMapAppend(slices, slice);
      slices := slices + [slice];
      colourSquares := colourSquares[option.optionId := colour];
      startDegrees := endDegrees;
    }
  }

  // ---------------------------------------------------------------- cache

  /** What Cache::put stores under the poll's id. */
  datatype CacheEntry = CacheEntry(voteCount: nat, slices: seq<Slice>, colourSquares: map<OptionId, Rgb>)

  class ChartCache {
    var entries: map<PollId, CacheEntry>

    constructor ()
      ensures entries == map[]
    {
      entries := map[];
    }
  }

  /** The chart is reused iff an entry exists whose vote count is the current one. */
  predicate CacheHit(entries: map<PollId, CacheEntry>, pollId: PollId, voteCount: nat) {
    pollId in entries && entries[pollId].voteCount == voteCount
  }

  /** createPieChart: keep the cached chart when its vote count is current,
      otherwise lay the chart out again and store it with the current count. */
  method CreatePieChart(poll: Poll, palette: seq<Rgb>, cache: ChartCache)
    requires ValidPalette(palette)
    modifies cache
    ensures CacheHit(old(cache.entries), poll.id, |poll.votes|) ==> cache.entries == old(cache.entries)
    ensures !CacheHit(old(cache.entries), poll.id, |poll.votes|) ==>
              cache.entries == old(cache.entries)[poll.id :=
                CacheEntry(|poll.votes|, ChartSlices(poll.options, poll.votes, palette),
                           SwatchMap(ChartSlices(poll.options, poll.votes, palette)))]
    ensures CacheHit(cache.entries, poll.id, |poll.votes|)
  {
    var voteCount := |poll.votes|;
    if poll.id in cache.entries && cache.entries[poll.id].voteCount == voteCount {
      return;
    }
    var nonZero := PlottedTallies(poll.options, poll.votes);
    PlottedTalliesPlottable(poll.options, poll.votes);
    var slices, colourSquares := LayOutSlices(nonZero, voteCount, palette);
    cache.entries := cache.entries[poll.id := CacheEntry(voteCount, slices, colourSquares)];
  }
}
