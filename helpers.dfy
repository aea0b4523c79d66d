/**
 The time helpers of the relay: the human-readable rendering of a millisecond
 count (`ms_to_readable_string`, `secs_to_readable_string`) and the reconnect
 backoff delay (`backoff_delay`) with its two bounds.
 */
module Helpers {
  import opened Strings

  // ---------------------------------------------------------------------------
  // Splitting a millisecond count
  // ---------------------------------------------------------------------------

  /** A millisecond count split by successive `divmod`s. Only `days` can be
      negative: `divmod` floors, so every remainder lies in [0, divisor). */
  datatype Duration = Duration(days: int, hours: nat, minutes: nat, seconds: nat, millis: nat)

  const MillisPerDay: nat := 86400000

  /** `divmod` by a positive divisor floors; Dafny's `/` and `%` agree with it
      for every sign of the dividend. */
  function Decompose(milliseconds: int): (d: Duration)
    ensures d.hours < 24 && d.minutes < 60 && d.seconds < 60 && d.millis < 1000
    ensures d.days * 86400000 + d.hours * 3600000 + d.minutes * 60000 + d.seconds * 1000 + d.millis
            == milliseconds
  {
    var seconds, remainingMilliseconds := milliseconds / 1000, milliseconds % 1000;
    var minutes, remainingSeconds := seconds / 60, seconds % 60;
    var hours, remainingMinutes := minutes / 60, minutes % 60;
    var days, remainingHours := hours / 24, hours % 24;
    Duration(days, remainingHours, remainingMinutes, remainingSeconds, remainingMilliseconds)
  }

  /** The part of a Duration below one day. */
  function TimeOfDay(d: Duration): int {
    d.hours * 3600000 + d.minutes * 60000 + d.seconds * 1000 + d.millis
  }

  /** The days are the floored quotient by one day and the rest is the remainder. */
  lemma DecomposeDays(milliseconds: int)
    ensures Decompose(milliseconds).days == milliseconds / MillisPerDay
    ensures TimeOfDay(Decompose(milliseconds)) == milliseconds % MillisPerDay
  {
    var d := Decompose(milliseconds);
    var r := TimeOfDay(d);
    assert 0 <= r < MillisPerDay;
    assert milliseconds == d.days * MillisPerDay + r;
    DivModUnique(milliseconds, d.days, r);
  }

  lemma DivModUnique(n: int, q: int, r: int)
    requires 0 <= r < MillisPerDay && n == q * MillisPerDay + r
    ensures q == n / MillisPerDay && r == n % MillisPerDay
  {
  }

  lemma DivModThousand(n: int, q: int, r: int)
    requires 0 <= r < 1000 && n == q * 1000 + r
    ensures q == n / 1000 && r == n % 1000
  {
  }

  // ---------------------------------------------------------------------------
  // Which units are shown
  // ---------------------------------------------------------------------------

  datatype Unit = Days | Hours | Minutes | Seconds | Millis

  /** The order in which the units are appended. */
  const Units: seq<Unit> := [Days, Hours, Minutes, Seconds, Millis]

  function Count(d: Duration, u: Unit): int {
    match u
    case Days => d.days
    case Hours => d.hours
    case Minutes => d.minutes
    case Seconds => d.seconds
    case Millis => d.millis
  }

  function Scale(u: Unit): nat {
    match u
    case Days => 86400000
    case Hours => 3600000
    case Minutes => 60000
    case Seconds => 1000
    case Millis => 1
  }

  function Rank(u: Unit): nat {
    match u
    case Days => 0
    case Hours => 1
    case Minutes => 2
    case Seconds => 3
    case Millis => 4
  }

  predicate InOrder(us: seq<Unit>) {
    forall i, j :: 0 <= i < j < |us| ==> Rank(us[i]) < Rank(us[j])
  }

  /** The units of `us` whose count is positive, in the order of `us`. */
  function Kept(d: Duration, us: seq<Unit>): (r: seq<Unit>)
    ensures forall u :: u in r <==> u in us && Count(d, u) > 0
    ensures InOrder(us) ==> InOrder(r)
    decreases |us|
  {
    if us == [] then []
    else
      var rest := Kept(d, us[1..]);
      assert InOrder(us) ==> forall u :: u in rest ==> Rank(us[0]) < Rank(u);
      if Count(d, us[0]) > 0 then [us[0]] + rest else rest
  }

  /** The units the rendering shows: exactly those with a positive count, in
      the fixed order days, hours, minutes, seconds, milliseconds. */
  function Present(d: Duration): (r: seq<Unit>)
    ensures forall u :: u in r <==> Count(d, u) > 0
    ensures InOrder(r)
  {
    forall u ensures u in Units {
      assert Units[Rank(u)] == u;
    }
    Kept(d, Units)
  }

  // ---------------------------------------------------------------------------
  // Rendering and reading back
  // ---------------------------------------------------------------------------

  /** One entry of the `parts` list: a positive count and its unit word. */
  datatype Item = Item(count: nat, word: string)

  /** The words as the source writes them; the seconds are labelled "minutes". */
  function Word(u: Unit): string {
    match u
    case Days => "days"
    case Hours => "hours"
    case Minutes => "minutes"
    case Seconds => "minutes"
    case Millis => "ms"
  }

  /** The words with the seconds labelled "seconds". */
  function IntendedWord(u: Unit): string {
    match u
    case Days => "days"
    case Hours => "hours"
    case Minutes => "minutes"
    case Seconds => "seconds"
    case Millis => "ms"
  }

  predicate CommaFree(word: Unit -> string) {
    forall u :: ',' !in word(u)
  }

  function Label(d: Duration, us: seq<Unit>, word: Unit -> string): (items: seq<Item>)
    requires forall u :: u in us ==> Count(d, u) > 0
    ensures |items| == |us|
    ensures forall i :: 0 <= i < |us| ==> items[i] == Item(Count(d, us[i]) as nat, word(us[i]))
    decreases |us|
  {
    if us == [] then [] else [Item(Count(d, us[0]) as nat, word(us[0]))] + Label(d, us[1..], word)
  }

  /** The `parts` list: one item per shown unit. */
  function Items(d: Duration, word: Unit -> string): seq<Item> {
    Label(d, Present(d), word)
  }

  /** One rendered part, `f"{count} {word}"`. */
  function Piece(it: Item): string {
    Decimal(it.count) + " " + it.word
  }

  function Pieces(items: seq<Item>): (parts: seq<string>)
    ensures |parts| == |items|
    ensures forall i :: 0 <= i < |items| ==> parts[i] == Piece(items[i])
    decreases |items|
  {
    if items == [] then [] else [Piece(items[0])] + Pieces(items[1..])
  }

  /** `", ".join(parts)`. */
  function Render(items: seq<Item>): string {
    Join(Pieces(items), ", ")
  }

  /** `ms_to_readable_string`, as written. */
  function MsToReadable(milliseconds: int): (s: string)
    ensures s == [] <==> milliseconds <= 0 && milliseconds % MillisPerDay == 0
  {
    var d := Decompose(milliseconds);
    DecomposeDays(milliseconds);
    RenderEmpty(Items(d, Word));
    Render(Items(d, Word))
  }

  /** `secs_to_readable_string`. */
  function SecsToReadable(seconds: int): string {
    MsToReadable(seconds * 1000)
  }

  /** `ms_to_readable_string` with the seconds labelled "seconds". */
  function MsToReadableIntended(milliseconds: int): string {
    Render(Items(Decompose(milliseconds), IntendedWord))
  }

  lemma RenderEmpty(items: seq<Item>)
    ensures Render(items) == [] <==> items == []
  {
    if items != [] {
      assert Pieces(items)[0] == Piece(items[0]);
      assert |Decimal(items[0].count)| >= 1;
    }
  }

  /** Reads a rendered parts list back: `count word` pieces separated by ", ". */
  function ParseItems(s: string): Option<seq<Item>> {
    if s == [] then Some([]) else ParseItemList(s)
  }

  function ParseItemList(s: string): Option<seq<Item>>
    decreases |s|
  {
    var k := DigitRun(s);
    if k == 0 || k == |s| || s[k] != ' ' then None
    else
      var rest := s[k + 1..];
      var j := IndexOf(rest, ',');
      var item := Item(ParseDecimal(s[..k]), rest[..j]);
      if j == |rest| then Some([item])
      else if j + 1 < |rest| && rest[j + 1] == ' ' then
        match ParseItemList(rest[j + 2..])
        case None => None
        case Some(tail) => Some([item] + tail)
      else None
  }

  /** The count of a piece ends at the first space. */
  lemma SplitCount(digits: string, rest: string)
    requires |digits| >= 1 && AllDigits(digits)
    ensures DigitRun(digits + [' '] + rest) == |digits|
    ensures (digits + [' '] + rest)[..|digits|] == digits
    ensures (digits + [' '] + rest)[|digits|] == ' '
    ensures (digits + [' '] + rest)[|digits| + 1..] == rest
  {
    assert digits + [' '] + rest == digits + ([' '] + rest);
    DigitRunOfDigits(digits, [' '] + rest);
  }

  /** The word of a piece ends at the first comma. */
  lemma SplitWord(word: string, tail: string)
    requires ',' !in word
    requires tail == [] || (|tail| >= 2 && tail[0] == ',' && tail[1] == ' ')
    ensures IndexOf(word + tail, ',') == |word|
    ensures (word + tail)[..|word|] == word
    ensures tail != [] ==> (word + tail)[|word| + 1] == ' ' && (word + tail)[|word| + 2..] == tail[2..]
  {
    IndexOfFirst(word, tail, ',');
  }

  /** Reading one piece off the front of `Piece(it) + tail`. */
  lemma ParseItemListStep(it: Item, tail: string)
    requires ',' !in it.word
    requires tail == [] || (|tail| >= 2 && tail[0] == ',' && tail[1] == ' ')
    ensures ParseItemList(Piece(it) + tail) ==
      if tail == [] then Some([it])
      else match ParseItemList(tail[2..])
        case None => None
        case Some(items) => Some([it] + items)
  {
    var digits := Decimal(it.count);
    assert Piece(it) + tail == digits + [' '] + (it.word + tail);
    SplitCount(digits, it.word + tail);
    ParseDecimalOfDecimal(it.count);
    SplitWord(it.word, tail);
  }

  lemma {:induction false} ParseItemListRender(items: seq<Item>)
    requires |items| >= 1
    requires forall it :: it in items ==> ',' !in it.word
    ensures ParseItemList(Render(items)) == Some(items)
    decreases |items|
  {
    var it := items[0];
    if |items| == 1 {
      assert Render(items) == Piece(it) + [];
      ParseItemListStep(it, []);
      assert items == [it];
    } else {
      assert Pieces(items)[1..] == Pieces(items[1..]);
      var tail := ", " + Render(items[1..]);
      assert Render(items) == Piece(it) + tail;
      assert tail[0] == ',' && tail[1] == ' ';
      assert tail[2..] == Render(items[1..]);
      ParseItemListStep(it, tail);
      ParseItemListRender(items[1..]);
      assert items == [it] + items[1..];
    }
  }

  /** Reading back a rendering gives exactly the items it was made from. */
  lemma ParseRender(items: seq<Item>)
    requires forall it :: it in items ==> ',' !in it.word
    ensures ParseItems(Render(items)) == Some(items)
  {
    RenderEmpty(items);
    if items != [] {
      ParseItemListRender(items);
    }
  }

  lemma ItemsCommaFree(d: Duration, word: Unit -> string)
    requires CommaFree(word)
    ensures forall it :: it in Items(d, word) ==> ',' !in it.word
  {
    var items := Items(d, word);
    forall it | it in items ensures ',' !in it.word {
      var i :| 0 <= i < |items| && items[i] == it;
      assert it.word == word(Present(d)[i]);
    }
  }

  /** The rendering lists the positive units of the split, in order, each with
      its count and its (as written) word. */
  lemma MsToReadableItems(milliseconds: int)
    ensures ParseItems(MsToReadable(milliseconds)) == Some(Items(Decompose(milliseconds), Word))
  {
    var d := Decompose(milliseconds);
    WordCommaFree();
    ItemsCommaFree(d, Word);
    ParseRender(Items(d, Word));
  }

  /** `secs_to_readable_string` never shows milliseconds, and it is empty exactly
      for the non-positive whole numbers of days. */
  lemma SecsToReadableWholeSeconds(seconds: int)
    ensures Millis !in Present(Decompose(seconds * 1000))
    ensures SecsToReadable(seconds) == [] <==> seconds <= 0 && seconds % 86400 == 0
  {
    var n := seconds * 1000;
    var q, r := seconds / 86400, seconds % 86400;
    assert n == q * MillisPerDay + r * 1000;
    DivModUnique(n, q, r * 1000);
    assert Decompose(n).millis == 0 by {
      DivModThousand(n, seconds, 0);
    }
  }

  // ---------------------------------------------------------------------------
  // Reading a rendering back as a number of milliseconds
  // ---------------------------------------------------------------------------

  /** The number of milliseconds a unit word stands for. */
  function WordScale(word: string): Option<nat> {
    if word == "days" then Some(86400000)
    else if word == "hours" then Some(3600000)
    else if word == "minutes" then Some(60000)
    else if word == "seconds" then Some(1000)
    else if word == "ms" then Some(1)
    else None
  }

  function ItemsValue(items: seq<Item>): Option<int>
    decreases |items|
  {
    if items == [] then Some(0)
    else
      match (WordScale(items[0].word), ItemsValue(items[1..]))
      case (Some(scale), Some(rest)) => Some(items[0].count * scale + rest)
      case _ => None
  }

  /** The number of milliseconds a rendering reads as, taking each word at its meaning. */
  function ReadableToMs(s: string): Option<int> {
    match ParseItems(s)
    case None => None
    case Some(items) => ItemsValue(items)
  }

  /** The milliseconds the units `us` of `d` stand for. */
  function Total(d: Duration, us: seq<Unit>): int
    decreases |us|
  {
    if us == [] then 0 else Count(d, us[0]) * Scale(us[0]) + Total(d, us[1..])
  }

  lemma {:induction false} KeptTotal(d: Duration, us: seq<Unit>)
    requires forall u :: u in us ==> Count(d, u) >= 0
    ensures Total(d, Kept(d, us)) == Total(d, us)
    decreases |us|
  {
    if us != [] {
      KeptTotal(d, us[1..]);
      var rest := Kept(d, us[1..]);
      if Count(d, us[0]) > 0 {
        assert ([us[0]] + rest)[1..] == rest;
      }
    }
  }

  lemma IntendedWordScale(u: Unit)
    ensures WordScale(IntendedWord(u)) == Some(Scale(u))
  {
  }

  lemma {:induction false} LabelValue(d: Duration, us: seq<Unit>)
    requires forall u :: u in us ==> Count(d, u) > 0
    ensures ItemsValue(Label(d, us, IntendedWord)) == Some(Total(d, us))
    decreases |us|
  {
    if us != [] {
      LabelValue(d, us[1..]);
      IntendedWordScale(us[0]);
      assert Label(d, us, IntendedWord)[1..] == Label(d, us[1..], IntendedWord);
    }
  }

  lemma TotalOfDecompose(milliseconds: int)
    ensures Total(Decompose(milliseconds), Units) == milliseconds
  {
    var d := Decompose(milliseconds);
    assert Units[1..][1..][1..][1..][1..] == [];
  }

  lemma WordCommaFree()
    ensures CommaFree(Word)
  {
    forall u ensures ',' !in Word(u) {
      match u
      case Days => assert Word(u) == ['d', 'a', 'y', 's'];
      case Hours => assert Word(u) == ['h', 'o', 'u', 'r', 's'];
      case Minutes => assert Word(u) == ['m', 'i', 'n', 'u', 't', 'e', 's'];
      case Seconds => assert Word(u) == ['m', 'i', 'n', 'u', 't', 'e', 's'];
      case Millis => assert Word(u) == ['m', 's'];
    }
  }

  lemma IntendedWordCommaFree()
    ensures CommaFree(IntendedWord)
  {
    forall u ensures ',' !in IntendedWord(u) {
      match u
      case Days => assert IntendedWord(u) == ['d', 'a', 'y', 's'];
      case Hours => assert IntendedWord(u) == ['h', 'o', 'u', 'r', 's'];
      case Minutes => assert IntendedWord(u) == ['m', 'i', 'n', 'u', 't', 'e', 's'];
      case Seconds => assert IntendedWord(u) == ['s', 'e', 'c', 'o', 'n', 'd', 's'];
      case Millis => assert IntendedWord(u) == ['m', 's'];
    }
  }

  /** The intended parts list of a non-negative count adds up to that count. */
  lemma IntendedItemsValue(milliseconds: int)
    requires milliseconds >= 0
    ensures ItemsValue(Items(Decompose(milliseconds), IntendedWord)) == Some(milliseconds)
  {
    var d := Decompose(milliseconds);
    LabelValue(d, Present(d));
    DecomposeDays(milliseconds);
    KeptTotal(d, Units);
    TotalOfDecompose(milliseconds);
  }

  /** With the seconds labelled "seconds", reading a rendering back gives the
      millisecond count it was made from. */
  lemma MsToReadableIntendedRoundTrip(milliseconds: int)
    requires milliseconds >= 0
    ensures ReadableToMs(MsToReadableIntended(milliseconds)) == Some(milliseconds)
  {
    var d := Decompose(milliseconds);
    IntendedWordCommaFree();
    ItemsCommaFree(d, IntendedWord);
    ParseRender(Items(d, IntendedWord));
    IntendedItemsValue(milliseconds);
  }

  /** With the seconds labelled "seconds", different non-negative counts render differently. */
  lemma MsToReadableIntendedInjective(a: int, b: int)
    requires a >= 0 && b >= 0
    requires MsToReadableIntended(a) == MsToReadableIntended(b)
    ensures a == b
  {
    MsToReadableIntendedRoundTrip(a);
    MsToReadableIntendedRoundTrip(b);
  }

  lemma PresentSingle(d: Duration, u: Unit)
    requires forall v :: Count(d, v) > 0 <==> v == u
    ensures Present(d) == [u]
  {
    var r := Present(d);
    assert u in r;
  }

  lemma FiveMinutesValue()
    ensures ItemsValue([Item(5, "minutes")]) == Some(300000)
  {
    var items := [Item(5, "minutes")];
    assert WordScale(items[0].word) == Some(60000);
    assert ItemsValue(items[1..]) == Some(0);
  }

  lemma FiveMinutesText()
    ensures Render([Item(5, "minutes")]) == "5 minutes"
  {
    var items := [Item(5, "minutes")];
    assert Decimal(5) == ['5'];
    assert Pieces(items) == [Piece(items[0])];
  }

  /** As written, 5 seconds and 5 minutes render alike, as "5 minutes", which
      reads back as 5 minutes. */
  lemma MsToReadableAmbiguous()
    ensures MsToReadable(5000) == "5 minutes"
    ensures MsToReadable(5000) == MsToReadable(300000)
    ensures ReadableToMs(MsToReadable(5000)) == Some(300000)
  {
    var fiveSeconds, fiveMinutes := Decompose(5000), Decompose(300000);
    assert fiveSeconds == Duration(0, 0, 0, 5, 0);
    assert fiveMinutes == Duration(0, 0, 5, 0, 0);
    PresentSingle(fiveSeconds, Seconds);
    PresentSingle(fiveMinutes, Minutes);
    var items := [Item(5, "minutes")];
    assert Items(fiveSeconds, Word) == items;
    assert Items(fiveMinutes, Word) == items;
    FiveMinutesText();
    MsToReadableItems(5000);
    FiveMinutesValue();
  }

  // ---------------------------------------------------------------------------
  // Reconnect backoff
  // ---------------------------------------------------------------------------

  const BackoffDelayMinMs: int := 200
  const BackoffDelayMaxMs: int := 5 * 60 * 1000

  function Min(a: int, b: int): int { if a <= b then a else b }

  function Max(a: int, b: int): int { if a >= b then a else b }

  /** `backoff_delay`, as written, on the milliseconds elapsed since the
      connection was lost; the delay is returned in milliseconds. The first
      test catches every elapsed time of 5 s or more, so the 2-minute and
      20-minute tiers are never taken. */
  function BackoffDelay(elapsedMs: int, attempts: int): (delayMs: int)
    ensures BackoffDelayMinMs <= delayMs <= BackoffDelayMaxMs
    ensures delayMs == if elapsedMs < 5000 then BackoffDelayMinMs else 1000
  {
    var tierMs :=
      if elapsedMs >= 5 * 1000 then 1000
      else if elapsedMs >= 2 * 60 * 1000 then 5 * 1000
      else if elapsedMs >= 20 * 60 * 1000 then 30 * 1000
      else 0;
    Min(Max(BackoffDelayMinMs, tierMs), BackoffDelayMaxMs)
  }

  /** A longer outage never gets a shorter delay, whatever the attempt counts. */
  lemma BackoffDelayMonotone(elapsedMs: int, laterMs: int, attempts: int, laterAttempts: int)
    requires elapsedMs <= laterMs
    ensures BackoffDelay(elapsedMs, attempts) <= BackoffDelay(laterMs, laterAttempts)
  {
  }

  /** The attempt count plays no part in the delay. */
  lemma BackoffDelayIgnoresAttempts(elapsedMs: int, attempts: int, otherAttempts: int)
    ensures BackoffDelay(elapsedMs, attempts) == BackoffDelay(elapsedMs, otherAttempts)
  {
  }

  /** The delay with the tiers tested from the longest outage down, so that
      each of them is reachable. */
  function TieredBackoffDelay(elapsedMs: int): (delayMs: int)
    ensures BackoffDelayMinMs <= delayMs <= BackoffDelayMaxMs
  {
    var tierMs :=
      if elapsedMs >= 20 * 60 * 1000 then 30 * 1000
      else if elapsedMs >= 2 * 60 * 1000 then 5 * 1000
      else if elapsedMs >= 5 * 1000 then 1000
      else 0;
    Min(Max(BackoffDelayMinMs, tierMs), BackoffDelayMaxMs)
  }

  lemma TieredBackoffDelayMonotone(elapsedMs: int, laterMs: int)
    requires elapsedMs <= laterMs
    ensures TieredBackoffDelay(elapsedMs) <= TieredBackoffDelay(laterMs)
  {
  }

  /** Every tier of the tiered delay is taken, at its own threshold. */
  lemma TieredBackoffDelayTiers(elapsedMs: int)
    ensures elapsedMs < 5000 ==> TieredBackoffDelay(elapsedMs) == 200
    ensures 5000 <= elapsedMs < 120000 ==> TieredBackoffDelay(elapsedMs) == 1000
    ensures 120000 <= elapsedMs < 1200000 ==> TieredBackoffDelay(elapsedMs) == 5000
    ensures 1200000 <= elapsedMs ==> TieredBackoffDelay(elapsedMs) == 30000
  {
  }

  /** As written, the delay is never 5 s or 30 s; after two minutes of outage
      it is 1 s where the tiered delay is 5 s. */
  lemma BackoffDelaySkipsTiers(elapsedMs: int, attempts: int)
    ensures BackoffDelay(elapsedMs, attempts) != 5000 && BackoffDelay(elapsedMs, attempts) != 30000
    ensures BackoffDelay(120000, attempts) == 1000 != TieredBackoffDelay(120000)
  {
  }
}
