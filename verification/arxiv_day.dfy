/**
  The one-day arXiv digest: for a chosen date and a list of categories it
  builds one search query per category, keeps the results first published
  on that date, and groups the kept papers by category.

  The arXiv client itself is not modelled: the result stream it returns for
  the k-th category of the list is an input, `streams[k]`.
 */
module ArxivDay {

  // ---------------------------------------------------------------- dates

  /** A calendar date, as the host language's date type holds it. */
  datatype Date = Date(year: int, month: int, day: int)

  predicate IsLeapYear(y: int)
  {
    y % 4 == 0 && (y % 100 != 0 || y % 400 == 0)
  }

  function DaysInMonth(y: int, m: int): int
    requires 1 <= m <= 12
  {
    if m == 2 then (if IsLeapYear(y) then 29 else 28)
    else if m == 4 || m == 6 || m == 9 || m == 11 then 30
    else 31
  }

  /** The dates the host language can represent: years 1 to 9999 of the proleptic Gregorian calendar. */
  predicate ValidDate(d: Date)
  {
    && 1 <= d.year <= 9999
    && 1 <= d.month <= 12
    && 1 <= d.day <= DaysInMonth(d.year, d.month)
  }

  // ------------------------------------------------------- decimal fields

  function Pow10(n: nat): nat
  {
    if n == 0 then 1 else 10 * Pow10(n - 1)
  }

  predicate IsDigit(c: char)
  {
    '0' <= c <= '9'
  }

  predicate AllDigits(s: string)
  {
    forall i | 0 <= i < |s| :: IsDigit(s[i])
  }

  function DigitChar(v: int): (c: char)
    requires 0 <= v < 10
    ensures IsDigit(c)
  {
    ('0' as int + v) as char
  }

  /** `n` in decimal, left-padded with zeros to exactly `width` digits. */
  function PadDecimal(n: nat, width: nat): (r: string)
    requires n < Pow10(width)
    ensures |r| == width
    ensures AllDigits(r)
  {
    if width == 0 then []
    else PadDecimal(n / 10, width - 1) + [DigitChar(n % 10)]
  }

  /** The number a string of decimal digits spells. */
  function DecimalValue(s: string): int
  {
    if s == [] then 0
    else 10 * DecimalValue(s[..|s| - 1]) + (s[|s| - 1] as int - '0' as int)
  }

  /** Reading back a padded field gives the number that was written. */
  lemma {:induction false} PadDecimalRoundTrip(n: nat, width: nat)
    requires n < Pow10(width)
    ensures DecimalValue(PadDecimal(n, width)) == n
  {
    if width > 0 {
      var r := PadDecimal(n, width);
      PadDecimalRoundTrip(n / 10, width - 1);
      assert r[..|r| - 1] == PadDecimal(n / 10, width - 1);
    }
  }

  // ---------------------------------------------------------- timestamps

  /** The date as eight digits, year, month and day: `YYYYMMDD`. */
  function DayPrefix(d: Date): (r: string)
    requires ValidDate(d)
    ensures |r| == 8 && AllDigits(r)
  {
    PadDecimal(d.year, 4) + PadDecimal(d.month, 2) + PadDecimal(d.day, 2)
  }

  /** The date followed by a four-digit clock time `hhmm`. */
  function WindowStamp(d: Date, clock: string): (r: string)
    requires ValidDate(d)
    requires |clock| == 4 && AllDigits(clock)
    ensures |r| == 12 && AllDigits(r)
    ensures r[..8] == DayPrefix(d) && r[8..] == clock
  {
    DayPrefix(d) + clock
  }

  /** The lower end of the submission window: the date at 00:00. */
  function FromStamp(d: Date): string
    requires ValidDate(d)
  {
    WindowStamp(d, "0000")
  }

  /** The upper end of the submission window: the date at 23:59. */
  function ToStamp(d: Date): string
    requires ValidDate(d)
  {
    WindowStamp(d, "2359")
  }

  /** A minute-resolution timestamp as the search syntax reads it. */
  datatype Stamp = Stamp(date: Date, hour: int, minute: int)

  /** Reads a `YYYYMMDDhhmm` timestamp field by field. */
  function ParseStamp(s: string): Stamp
    requires |s| == 12
  {
    Stamp(Date(DecimalValue(s[..4]), DecimalValue(s[4..6]), DecimalValue(s[6..8])),
          DecimalValue(s[8..10]), DecimalValue(s[10..12]))
  }

  /**
    The two window ends read back as the start of the chosen day and 23:59
    of the same day.
   */
  lemma StampsRoundTrip(d: Date)
    requires ValidDate(d)
    ensures ParseStamp(FromStamp(d)) == Stamp(d, 0, 0)
    ensures ParseStamp(ToStamp(d)) == Stamp(d, 23, 59)
    ensures FromStamp(d)[..8] == ToStamp(d)[..8] == DayPrefix(d)
  {
    TwoDigitConstants();
    assert FromStamp(d) == DayPrefix(d) + ("00" + "00");
    assert ToStamp(d) == DayPrefix(d) + ("23" + "59");
    StampRoundTrip(d, "00", "00");
    StampRoundTrip(d, "23", "59");
  }

  /** A date followed by two-digit hour and minute fields reads back field by field. */
  lemma StampRoundTrip(d: Date, hh: string, mm: string)
    requires ValidDate(d)
    requires |hh| == 2 && |mm| == 2
    ensures (DayPrefix(d) + (hh + mm))[..8] == DayPrefix(d)
    ensures ParseStamp(DayPrefix(d) + (hh + mm)) == Stamp(d, DecimalValue(hh), DecimalValue(mm))
  {
    PadDecimalRoundTrip(d.year, 4);
    PadDecimalRoundTrip(d.month, 2);
    PadDecimalRoundTrip(d.day, 2);
    var y, m, dd := PadDecimal(d.year, 4), PadDecimal(d.month, 2), PadDecimal(d.day, 2);
    assert DayPrefix(d) + (hh + mm) == y + m + dd + hh + mm;
    ParseStampFields(y, m, dd, hh, mm);
  }

  lemma TwoDigitConstants()
    ensures DecimalValue("00") == 0
    ensures DecimalValue("23") == 23
    ensures DecimalValue("59") == 59
  {
    assert "00"[..1] == "0" && "23"[..1] == "2" && "59"[..1] == "5";
    assert DecimalValue("0") == 0 && DecimalValue("2") == 2 && DecimalValue("5") == 5;
  }

  /** Parsing a timestamp assembled from five digit fields returns the fields' values. */
  lemma ParseStampFields(y: string, m: string, dd: string, hh: string, mm: string)
    requires |y| == 4 && |m| == 2 && |dd| == 2 && |hh| == 2 && |mm| == 2
    ensures ParseStamp(y + m + dd + hh + mm)
            == Stamp(Date(DecimalValue(y), DecimalValue(m), DecimalValue(dd)),
                     DecimalValue(hh), DecimalValue(mm))
  {
    var a := y + m;
    var b := a + dd;
    var c := b + hh;
    var s := c + mm;
    assert s[..10] == c && s[10..12] == mm;
    assert c[..8] == b && c[8..10] == hh;
    assert b[..6] == a && b[6..8] == dd;
    assert a[..4] == y && a[4..6] == m;
    assert s[..4] == y && s[4..6] == m && s[6..8] == dd && s[8..10] == hh;
  }

  /** Distinct dates give distinct window starts. */
  lemma FromStampInjective(d1: Date, d2: Date)
    requires ValidDate(d1) && ValidDate(d2)
    requires FromStamp(d1) == FromStamp(d2)
    ensures d1 == d2
  {
    StampsRoundTrip(d1);
    StampsRoundTrip(d2);
  }

  // --------------------------------------------------------------- query

  const QueryHead: string := "cat:"
  const DateClause: string := " AND submittedDate:["
  const RangeSep: string := " TO "
  const QueryTail: string := "]"

  /** The search query for one category and one day. */
  function Query(cat: string, d: Date): string
    requires ValidDate(d)
  {
    QueryText(cat, FromStamp(d), ToStamp(d))
  }

  /** The query text for one category and given window ends. */
  function QueryText(cat: string, fromTs: string, toTs: string): string
  {
    QueryHead + cat + DateClause + fromTs + RangeSep + toTs + QueryTail
  }

  /**
    Where each part sits in the query: the category right after `cat:`,
    then the date clause, the two window ends around ` TO `, and the closing
    bracket.
   */
  lemma QueryLayout(cat: string, d: Date)
    requires ValidDate(d)
    ensures var q, n := Query(cat, d), |cat|;
            && |q| == n + 53
            && q[..4] == "cat:"
            && q[4..4 + n] == cat
            && q[4 + n..24 + n] == " AND submittedDate:["
            && q[24 + n..36 + n] == FromStamp(d)
            && q[36 + n..40 + n] == " TO "
            && q[40 + n..52 + n] == ToStamp(d)
            && q[52 + n] == ']'
  {
    var q, n := Query(cat, d), |cat|;
    assert q == (((((QueryHead + cat) + DateClause) + FromStamp(d)) + RangeSep) + ToStamp(d)) + QueryTail;
  }

  /** The query names its category and its day unambiguously. */
  lemma QueryInjective(c1: string, d1: Date, c2: string, d2: Date)
    requires ValidDate(d1) && ValidDate(d2)
    requires Query(c1, d1) == Query(c2, d2)
    ensures c1 == c2 && d1 == d2
  {
    QueryLayout(c1, d1);
    QueryLayout(c2, d2);
    var n := |c1|;
    assert |c2| == n;
    var q := Query(c1, d1);
    assert c1 == q[4..4 + n] == c2;
    assert FromStamp(d1) == q[24 + n..36 + n] == FromStamp(d2);
    FromStampInjective(d1, d2);
  }

  // ------------------------------------------------------------- results

  datatype Author = Author(name: string)

  /** A publication instant; only its calendar date matters here. */
  datatype DateTime = DateTime(date: Date, hour: int, minute: int, second: int)

  /** One search result, as the client hands it over. */
  datatype SearchResult = SearchResult(
    title: string,
    authors: seq<Author>,
    published: DateTime,
    summary: string,
    entryId: string)

  /** One stored paper record. */
  datatype Paper = Paper(
    title: string,
    authors: seq<string>,
    published: Date,
    summary: string,
    link: string)

  /** The record stored for a kept result. */
  function ToPaper(r: SearchResult): (p: Paper)
    ensures p.title == r.title && p.summary == r.summary && p.link == r.entryId
    ensures p.published == r.published.date
    ensures |p.authors| == |r.authors|
    ensures forall i | 0 <= i < |r.authors| :: p.authors[i] == r.authors[i].name
  {
    Paper(r.title,
          seq(|r.authors|, i requires 0 <= i < |r.authors| => r.authors[i].name),
          r.published.date,
          r.summary,
          r.entryId)
  }

  /** The filter applied to each result. */
  predicate PublishedOn(r: SearchResult, d: Date)
  {
    r.published.date == d
  }

  /** The records kept from one result stream, in stream order. */
  function SameDay(stream: seq<SearchResult>, d: Date): (kept: seq<Paper>)
    ensures |kept| <= |stream|
    ensures forall p | p in kept :: p.published == d
  {
    if stream == [] then []
    else
      var last := stream[|stream| - 1];
      SameDay(stream[..|stream| - 1], d) + (if PublishedOn(last, d) then [ToPaper(last)] else [])
  }

  /** The positions of the stream whose results are kept. */
  function SameDayPositions(stream: seq<SearchResult>, d: Date): seq<int>
  {
    if stream == [] then []
    else
      var n := |stream| - 1;
      SameDayPositions(stream[..n], d) + (if PublishedOn(stream[n], d) then [n] else [])
  }

  /**
    The kept records are the images of exactly the same-day results, taken
    at strictly increasing positions: nothing is reordered, dropped or
    repeated.
   */
  lemma {:induction false} SameDayIsOrderedSelection(stream: seq<SearchResult>, d: Date)
    ensures var kept, pos := SameDay(stream, d), SameDayPositions(stream, d);
            && |pos| == |kept|
            && (forall k | 0 <= k < |pos| :: 0 <= pos[k] < |stream| && kept[k] == ToPaper(stream[pos[k]]))
            && (forall k, l | 0 <= k < l < |pos| :: pos[k] < pos[l])
            && (forall i | 0 <= i < |stream| :: PublishedOn(stream[i], d) <==> i in pos)
  {
    PositionsAreSameDay(stream, d);
    KeptAreImages(stream, d);
  }

  /** The kept positions are increasing and are exactly the same-day positions. */
  lemma {:induction false} PositionsAreSameDay(stream: seq<SearchResult>, d: Date)
    ensures var pos := SameDayPositions(stream, d);
            && (forall k | 0 <= k < |pos| :: 0 <= pos[k] < |stream|)
            && (forall k, l | 0 <= k < l < |pos| :: pos[k] < pos[l])
            && (forall i | 0 <= i < |stream| :: PublishedOn(stream[i], d) <==> i in pos)
  {
    if stream != [] {
      var n := |stream| - 1;
      var init := stream[..n];
      PositionsAreSameDay(init, d);
      forall i | 0 <= i < n
        ensures stream[i] == init[i]
      {
      }
    }
  }

  /** The `k`-th kept record is the image of the result at the `k`-th kept position. */
  lemma {:induction false} KeptAreImages(stream: seq<SearchResult>, d: Date)
    ensures var kept, pos := SameDay(stream, d), SameDayPositions(stream, d);
            && |pos| == |kept|
            && (forall k | 0 <= k < |pos| :: 0 <= pos[k] < |stream| && kept[k] == ToPaper(stream[pos[k]]))
  {
    if stream != [] {
      var n := |stream| - 1;
      var init := stream[..n];
      KeptAreImages(init, d);
      var kept0, pos0 := SameDay(init, d), SameDayPositions(init, d);
      forall k | 0 <= k < |pos0|
        ensures 0 <= pos0[k] < n && kept0[k] == ToPaper(stream[pos0[k]])
      {
        assert init[pos0[k]] == stream[pos0[k]];
      }
      ImagesExtend(stream, kept0, pos0, PublishedOn(stream[n], d));
    }
  }

  /** Keeping the last result or not extends the position-to-record matching. */
  lemma ImagesExtend(stream: seq<SearchResult>, kept0: seq<Paper>, pos0: seq<int>, keepLast: bool)
    requires |stream| > 0 && |pos0| == |kept0|
    requires forall k | 0 <= k < |pos0| ::
               0 <= pos0[k] < |stream| - 1 && kept0[k] == ToPaper(stream[pos0[k]])
    ensures var n := |stream| - 1;
            var kept := kept0 + (if keepLast then [ToPaper(stream[n])] else []);
            var pos := pos0 + (if keepLast then [n] else []);
            && |pos| == |kept|
            && (forall k | 0 <= k < |pos| :: 0 <= pos[k] < |stream| && kept[k] == ToPaper(stream[pos[k]]))
  {
  }

  // ------------------------------------------------------------ grouping

  /** The `.get(cat, [])` lookup: a missing category reads as no papers. */
  function Lookup(byCat: map<string, seq<Paper>>, cat: string): seq<Paper>
  {
    if cat in byCat then byCat[cat] else []
  }

  /**
    Appending `papers` to the list under `cat`, one at a time, into a
    dictionary that creates a key on its first append only.
   */
  function AppendAll(byCat: map<string, seq<Paper>>, cat: string, papers: seq<Paper>): map<string, seq<Paper>>
  {
    if papers == [] then byCat else byCat[cat := Lookup(byCat, cat) + papers]
  }

  /** The dictionary after processing the first `|cats|` categories. */
  function Grouped(cats: seq<string>, streams: seq<seq<SearchResult>>, d: Date): map<string, seq<Paper>>
    requires |streams| == |cats|
  {
    if cats == [] then map[]
    else
      var n := |cats| - 1;
      AppendAll(Grouped(cats[..n], streams[..n], d), cats[n], SameDay(streams[n], d))
  }

  /**
    Everything kept for `cat`, across every position of the list that names
    it, in list order.
   */
  function KeptFor(cats: seq<string>, streams: seq<seq<SearchResult>>, d: Date, cat: string): seq<Paper>
    requires |streams| == |cats|
  {
    if cats == [] then []
    else
      var n := |cats| - 1;
      KeptFor(cats[..n], streams[..n], d, cat) + (if cats[n] == cat then SameDay(streams[n], d) else [])
  }

  /**
    The grouped dictionary holds a key exactly for the categories that kept
    at least one paper, and under each category the papers kept for it.
   */
  lemma {:induction false} GroupedByCategory(cats: seq<string>, streams: seq<seq<SearchResult>>, d: Date, cat: string)
    requires |streams| == |cats|
    ensures Lookup(Grouped(cats, streams, d), cat) == KeptFor(cats, streams, d, cat)
    ensures cat in Grouped(cats, streams, d) <==> KeptFor(cats, streams, d, cat) != []
  {
    if cats != [] {
      var n := |cats| - 1;
      GroupedByCategory(cats[..n], streams[..n], d, cat);
    }
  }

  /** A category that is not in the list, or kept nothing, has no key. */
  lemma {:induction false} KeptForAbsent(cats: seq<string>, streams: seq<seq<SearchResult>>, d: Date, cat: string)
    requires |streams| == |cats|
    ensures (forall k | 0 <= k < |cats| && cats[k] == cat :: SameDay(streams[k], d) == [])
            <==> KeptFor(cats, streams, d, cat) == []
  {
    if cats != [] {
      var n := |cats| - 1;
      KeptForAbsent(cats[..n], streams[..n], d, cat);
      assert forall k | 0 <= k < n :: cats[..n][k] == cats[k] && streams[..n][k] == streams[k];
    }
  }

  /**
    When a category appears once in the list, its papers are exactly those
    kept from its own stream.
   */
  lemma {:induction false} KeptForSingle(cats: seq<string>, streams: seq<seq<SearchResult>>, d: Date, k: int)
    requires |streams| == |cats|
    requires 0 <= k < |cats|
    requires forall l | 0 <= l < |cats| && l != k :: cats[l] != cats[k]
    ensures KeptFor(cats, streams, d, cats[k]) == SameDay(streams[k], d)
  {
    var n := |cats| - 1;
    var cat := cats[k];
    if k == n {
      assert forall l | 0 <= l < n :: cats[..n][l] != cat;
      KeptForAbsent(cats[..n], streams[..n], d, cat);
    } else {
      assert forall l | 0 <= l < n && l != k :: cats[..n][l] != cats[..n][k];
      KeptForSingle(cats[..n], streams[..n], d, k);
    }
  }

  /** Every stored paper was published on the chosen day. */
  lemma {:induction false} KeptForSameDay(cats: seq<string>, streams: seq<seq<SearchResult>>, d: Date, cat: string)
    requires |streams| == |cats|
    ensures forall p | p in KeptFor(cats, streams, d, cat) :: p.published == d
  {
    if cats != [] {
      var n := |cats| - 1;
      KeptForSameDay(cats[..n], streams[..n], d, cat);
    }
  }

  // --------------------------------------------------------------- fetch

  /** One more result seen: the kept list grows by its record when it is a same-day result. */
  lemma SameDayStep(stream: seq<SearchResult>, d: Date, j: int)
    requires 0 <= j < |stream|
    ensures SameDay(stream[..j + 1], d)
            == SameDay(stream[..j], d) + (if PublishedOn(stream[j], d) then [ToPaper(stream[j])] else [])
  {
    assert stream[..j + 1][..j] == stream[..j];
  }

  /** Appending one record after a batch is appending the longer batch. */
  lemma AppendAllStep(byCat: map<string, seq<Paper>>, cat: string, papers: seq<Paper>, p: Paper)
    ensures var m := AppendAll(byCat, cat, papers);
            AppendAll(byCat, cat, papers + [p]) == m[cat := Lookup(m, cat) + [p]]
  {
    if papers == [] {
      assert papers + [p] == [p];
    } else {
      assert Lookup(byCat, cat) + (papers + [p]) == (Lookup(byCat, cat) + papers) + [p];
    }
  }

  /**
    The walk over one category's results: each same-day result is appended
    to the category's list as it is met.
   */
  method AppendSameDay(byCat: map<string, seq<Paper>>, cat: string, stream: seq<SearchResult>, d: Date)
    returns (out: map<string, seq<Paper>>)
    ensures out == AppendAll(byCat, cat, SameDay(stream, d))
  {
    out := byCat;
    var j := 0;
    while j < |stream|
      invariant 0 <= j <= |stream|
      invariant out == AppendAll(byCat, cat, SameDay(stream[..j], d))
    {
      var result := stream[j];
      SameDayStep(stream, d, j);
      ghost var keptSoFar := SameDay(stream[..j], d);
      if result.published.date == d {
        assert SameDay(stream[..j + 1], d) == keptSoFar + [ToPaper(result)];
        AppendAllStep(byCat, cat, keptSoFar, ToPaper(result));
        out := out[cat := Lookup(out, cat) + [ToPaper(result)]];
      } else {
        assert SameDay(stream[..j + 1], d) == keptSoFar;
      }
      j := j + 1;
    }
    assert stream[..j] == stream;
  }

  /**
    Runs the day fetch: one query per category, then a walk over that
    category's results that appends each same-day result to the category's
    list.
   */
  method FetchByDay(cats: seq<string>, streams: seq<seq<SearchResult>>, d: Date)
    returns (byCat: map<string, seq<Paper>>, queries: seq<string>)
    requires ValidDate(d)
    requires |streams| == |cats|
    ensures |queries| == |cats|
    ensures forall k | 0 <= k < |cats| :: queries[k] == Query(cats[k], d)
    ensures forall cat :: Lookup(byCat, cat) == KeptFor(cats, streams, d, cat)
    ensures forall cat | cat in byCat :: byCat[cat] != []
    ensures forall cat, p | cat in byCat && p in byCat[cat] :: p.published == d
  {
    var fromTs, toTs := FromStamp(d), ToStamp(d);
    byCat := map[];
    queries := [];
    var k := 0;
    while k < |cats|
      invariant 0 <= k <= |cats|
      invariant |queries| == k
      invariant forall l | 0 <= l < k :: queries[l] == QueryText(cats[l], fromTs, toTs)
      invariant byCat == Grouped(cats[..k], streams[..k], d)
    {
      queries := queries + [QueryText(cats[k], fromTs, toTs)];
      byCat := AppendSameDay(byCat, cats[k], streams[k], d);
      GroupedStep(cats, streams, d, k);
      k := k + 1;
    }
    assert cats[..k] == cats;
    assert streams[..k] == streams;
    GroupedMeaning(cats, streams, d);
  }

  /** Processing one more category appends what its stream kept. */
  lemma GroupedStep(cats: seq<string>, streams: seq<seq<SearchResult>>, d: Date, k: int)
    requires |streams| == |cats|
    requires 0 <= k < |cats|
    ensures Grouped(cats[..k + 1], streams[..k + 1], d)
            == AppendAll(Grouped(cats[..k], streams[..k], d), cats[k], SameDay(streams[k], d))
  {
    assert cats[..k + 1][..k] == cats[..k];
    assert streams[..k + 1][..k] == streams[..k];
  }

  /** What the finished dictionary holds, for every category at once. */
  lemma {:induction false} GroupedMeaning(cats: seq<string>, streams: seq<seq<SearchResult>>, d: Date)
    requires |streams| == |cats|
    ensures var byCat := Grouped(cats, streams, d);
            && (forall cat :: Lookup(byCat, cat) == KeptFor(cats, streams, d, cat))
            && (forall cat | cat in byCat :: byCat[cat] != [])
            && (forall cat, p | cat in byCat && p in byCat[cat] :: p.published == d)
  {
    var byCat := Grouped(cats, streams, d);
    forall cat
      ensures Lookup(byCat, cat) == KeptFor(cats, streams, d, cat)
      ensures cat in byCat ==> byCat[cat] != []
      ensures cat in byCat ==> forall p: Paper | p in byCat[cat] :: p.published == d
    {
      GroupedByCategory(cats, streams, d, cat);
      KeptForSameDay(cats, streams, d, cat);
    }
  }
}
