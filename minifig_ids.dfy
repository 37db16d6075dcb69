/** The minifigure-ID list expander of the popup: a comma-separated list of IDs,
    where an item `elf001...elf003` stands for every ID of the series from the
    first number to the second, becomes the ordered list of catalog IDs. */
module MinifigIds {
  import opened Results
  import opened Text

  /** Separates the items of the input list. */
  const ListSep := ","

  /** Separates the two endpoints of a range item. */
  const RangeSep := "..."

  /** The text of the error thrown when a range's first number exceeds its second. */
  const RangeOrderMessage := "Range seems incorrect. Correct range will look like \"elf001...elf003\""

  /** Why a range item cannot be expanded. The two malformed cases are where the
      JavaScript code dereferences the `null` that a failed regular-expression
      match returns (and so throws a TypeError); here they are explicit. */
  datatype RangeError =
    | MalformedLower(endpoint: string)
    | MalformedUpper(endpoint: string)
    | RangeIncorrect(message: string)

  // ---------------------------------------------------------------------------
  // getStringWithZeroes
  // ---------------------------------------------------------------------------

  /** `getStringWithZeroes(n)`: the number, with two zeros in front below 10 and
      one zero in front below 100. */
  function Pad(n: nat): string {
    if n < 10 then "00" + Decimal(n)
    else if n < 100 then "0" + Decimal(n)
    else Decimal(n)
  }

  /** The padded number is the decimal rendering of `n` preceded only by zeros, as
      many as bring it to width 3: its length is the larger of 3 and the number of
      digits of `n`, so no digit is ever cut off, and it reads back as `n`. */
  lemma PadSpec(n: nat)
    ensures AllDigits(Pad(n))
    ensures |Pad(n)| == if |Decimal(n)| < 3 then 3 else |Decimal(n)|
    ensures Pad(n) == Zeros(|Pad(n)| - |Decimal(n)|) + Decimal(n)
    ensures ParseDecimal(Pad(n)) == n
  {
    DecimalLength(n);
    var d := Decimal(n);
    assert Zeros(1) == "0";
    assert Zeros(2) == "00";
    DecimalReadsBack(n);
    ParseDecimalLeadingZeros(|Pad(n)| - |d|, d);
  }

  // ---------------------------------------------------------------------------
  // The endpoint pattern /^([a-zA-Z]+)(\d+)$/
  // ---------------------------------------------------------------------------

  /** The two capture groups of the endpoint pattern: series letters and number digits. */
  datatype Endpoint = Endpoint(series: string, digits: string)

  predicate WellFormed(e: Endpoint) {
    |e.series| > 0 && AllLetters(e.series) && |e.digits| > 0 && AllDigits(e.digits)
  }

  /** The strings the endpoint pattern accepts: one or more ASCII letters, then one
      or more ASCII digits, and nothing else. */
  predicate EndpointShaped(s: string) {
    exists k | 0 < k < |s| :: AllLetters(s[..k]) && AllDigits(s[k..])
  }

  /** Length of the longest prefix of ASCII letters. */
  function LeadingLetters(s: string): (k: nat)
    ensures k <= |s| && AllLetters(s[..k])
    ensures k == |s| || !IsAsciiLetter(s[k])
  {
    if s == [] || !IsAsciiLetter(s[0]) then 0
    else
      var k := 1 + LeadingLetters(s[1..]);
      assert s[..k] == [s[0]] + s[1..][..k - 1];
      k
  }

  /** `s.match(/^([a-zA-Z]+)(\d+)$/)`: the capture groups, or `None` where the
      JavaScript match returns `null`. */
  function MatchEndpoint(s: string): (r: Option<Endpoint>)
    ensures r.Some? ==> WellFormed(r.value) && s == r.value.series + r.value.digits
  {
    var k := LeadingLetters(s);
    if 0 < k < |s| && AllDigits(s[k..]) then Some(Endpoint(s[..k], s[k..])) else None
  }

  /** A well-formed series and number, written one after the other, match with
      exactly those capture groups. */
  lemma MatchEndpointComplete(e: Endpoint)
    requires WellFormed(e)
    ensures MatchEndpoint(e.series + e.digits) == Some(e)
  {
    var s := e.series + e.digits;
    var k := LeadingLetters(s);
    assert forall i :: 0 <= i < |e.series| ==> s[i] == e.series[i];
    assert s[|e.series|] == e.digits[0];
    assert forall i :: 0 <= i < k ==> s[..k][i] == s[i];
    assert k == |e.series|;
    assert s[..k] == e.series;
    assert s[k..] == e.digits;
  }

  /** The match succeeds exactly on the strings the pattern describes. */
  lemma MatchEndpointIff(s: string)
    ensures MatchEndpoint(s).Some? <==> EndpointShaped(s)
  {
    if EndpointShaped(s) {
      var k :| 0 < k < |s| && AllLetters(s[..k]) && AllDigits(s[k..]);
      assert s[..k] + s[k..] == s;
      MatchEndpointComplete(Endpoint(s[..k], s[k..]));
    }
    if MatchEndpoint(s).Some? {
      var e := MatchEndpoint(s).value;
      var k := |e.series|;
      assert s[..k] == e.series && s[k..] == e.digits;
    }
  }

  /** The number an ID carries, read the way the expander reads an endpoint. */
  function IdNumber(id: string): Option<nat> {
    match MatchEndpoint(id)
    case None => None
    case Some(e) => Some(ParseDecimal(e.digits))
  }

  // ---------------------------------------------------------------------------
  // getIdsInRange
  // ---------------------------------------------------------------------------

  /** The series and the inclusive number bounds of a range item. */
  datatype Range = Range(series: string, lower: nat, upper: nat)

  /** The parsing half of `getIdsInRange`: split on the range separator, match the
      first two pieces (any further pieces are ignored), take the series from the
      first piece only, and reject a first number greater than the second. */
  function ParseRange(item: string): (r: Result<Range, RangeError>)
    requires Contains(item, RangeSep)
    ensures r.Ok? ==> |r.value.series| > 0 && AllLetters(r.value.series)
    ensures r.Ok? ==> r.value.lower <= r.value.upper
  {
    var range := Split(item, RangeSep);
    match MatchEndpoint(range[0])
    case None => Err(MalformedLower(range[0]))
    case Some(lo) =>
      match MatchEndpoint(range[1])
      case None => Err(MalformedUpper(range[1]))
      case Some(hi) =>
        var lower, upper := ParseDecimal(lo.digits), ParseDecimal(hi.digits);
        if lower > upper then Err(RangeIncorrect(RangeOrderMessage))
        else Ok(Range(lo.series, lower, upper))
  }

  /** The IDs of a range: the series followed by the padded number, for every
      number from `lower` to `upper` in increasing order. */
  function IdsOf(rg: Range): seq<string>
    requires rg.lower <= rg.upper
  {
    IdsFrom(rg.series, rg.lower, rg.upper - rg.lower + 1)
  }

  /** `count` IDs of the series, numbered upwards from `lower`. */
  function IdsFrom(series: string, lower: nat, count: nat): seq<string> {
    seq(count, k requires 0 <= k => series + Pad(lower + k))
  }

  lemma IdsFromSnoc(series: string, lower: nat, count: nat)
    ensures IdsFrom(series, lower, count + 1) == IdsFrom(series, lower, count) + [series + Pad(lower + count)]
  {
  }

  /** What `getIdsInRange(item)` returns, or the error it throws. */
  function RangeIds(item: string): Result<seq<string>, RangeError>
    requires Contains(item, RangeSep)
  {
    match ParseRange(item)
    case Err(e) => Err(e)
    case Ok(rg) => Ok(IdsOf(rg))
  }

  /** `getIdsInRange(item)`, with its counting loop. */
  method GetIdsInRange(item: string) returns (r: Result<seq<string>, RangeError>)
    requires Contains(item, RangeSep)
    ensures r == RangeIds(item)
  {
    var range := Split(item, RangeSep);
    var matchLower := MatchEndpoint(range[0]);
    if matchLower.None? {
      assert ParseRange(item) == Err(MalformedLower(range[0]));
      return Err(MalformedLower(range[0]));
    }
    var series := matchLower.value.series;
    var lowerLimit := ParseDecimal(matchLower.value.digits);
    var matchUpper := MatchEndpoint(range[1]);
    if matchUpper.None? {
      assert ParseRange(item) == Err(MalformedUpper(range[1]));
      return Err(MalformedUpper(range[1]));
    }
    var upperLimit := ParseDecimal(matchUpper.value.digits);
    if lowerLimit > upperLimit {
      assert ParseRange(item) == Err(RangeIncorrect(RangeOrderMessage));
      return Err(RangeIncorrect(RangeOrderMessage));
    }
    assert ParseRange(item) == Ok(Range(series, lowerLimit, upperLimit));
    var arr: seq<string> := [];
    var i := lowerLimit;
    while i <= upperLimit
      invariant lowerLimit <= i <= upperLimit + 1
      invariant arr == IdsFrom(series, lowerLimit, i - lowerLimit)
    {
      IdsFromSnoc(series, lowerLimit, i - lowerLimit);
      arr := arr + [series + Pad(i)];
      i := i + 1;
    }
    return Ok(arr);
  }

  /** A range item written as two endpoints, possibly followed by further
      `...`-separated text: the series is the left endpoint's (the right one's
      letters are matched but unused), the trailing pieces are ignored, and a first
      number above the second fails with the "Range seems incorrect" error. */
  lemma ParseRangeOfEndpoints(lo: Endpoint, hi: Endpoint, tail: string)
    requires WellFormed(lo) && WellFormed(hi)
    requires tail == [] || (|tail| >= 3 && tail[..3] == RangeSep)
    ensures Contains(lo.series + lo.digits + RangeSep + hi.series + hi.digits + tail, RangeSep)
    ensures var item := lo.series + lo.digits + RangeSep + hi.series + hi.digits + tail;
            var lower, upper := ParseDecimal(lo.digits), ParseDecimal(hi.digits);
            ParseRange(item) == if lower > upper then Err(RangeIncorrect(RangeOrderMessage))
                                else Ok(Range(lo.series, lower, upper))
  {
    var left, right := lo.series + lo.digits, hi.series + hi.digits;
    NoDot(lo);
    NoDot(hi);
    RangeItemPieces(left, right, tail);
    assert left + RangeSep + right + tail == lo.series + lo.digits + RangeSep + hi.series + hi.digits + tail;
    MatchEndpointComplete(lo);
    MatchEndpointComplete(hi);
  }

  /** An endpoint contains no `.`. */
  lemma NoDot(e: Endpoint)
    requires WellFormed(e)
    ensures '.' !in e.series + e.digits
  {
    var s := e.series + e.digits;
    forall i | 0 <= i < |s| ensures s[i] != '.' {
      if i < |e.series| { assert s[i] == e.series[i]; } else { assert s[i] == e.digits[i - |e.series|]; }
    }
  }

  /** Splitting `left...right` (optionally followed by more `...`-separated
      text) on the range separator gives `left` and `right` as the first two pieces
      when neither contains a dot. */
  lemma RangeItemPieces(left: string, right: string, tail: string)
    requires '.' !in left && '.' !in right
    requires tail == [] || (|tail| >= 3 && tail[..3] == RangeSep)
    ensures Contains(left + RangeSep + right + tail, RangeSep)
    ensures var range := Split(left + RangeSep + right + tail, RangeSep);
            |range| >= 2 && range[0] == left && range[1] == right
  {
    assert RangeSep[0] == '.';
    SplitFirstTwo(left, right, RangeSep, tail);
  }

  /** A range item whose first or second piece is not letters-then-digits fails,
      naming the offending piece (the left one is examined first). */
  lemma ParseRangeMalformed(item: string)
    requires Contains(item, RangeSep)
    requires !EndpointShaped(Split(item, RangeSep)[0]) || !EndpointShaped(Split(item, RangeSep)[1])
    ensures var range := Split(item, RangeSep);
            ParseRange(item) == if !EndpointShaped(range[0]) then Err(MalformedLower(range[0]))
                                else Err(MalformedUpper(range[1]))
  {
    var range := Split(item, RangeSep);
    MatchEndpointIff(range[0]);
    MatchEndpointIff(range[1]);
  }

  /** A generated ID reads back, through the endpoint pattern, as its series and
      its number. */
  lemma IdReadBack(series: string, n: nat)
    requires |series| > 0 && AllLetters(series)
    ensures MatchEndpoint(series + Pad(n)) == Some(Endpoint(series, Pad(n)))
    ensures IdNumber(series + Pad(n)) == Some(n)
  {
    PadSpec(n);
    MatchEndpointComplete(Endpoint(series, Pad(n)));
  }

  /** A range holds `upper - lower + 1` IDs, at least one, and element `k` reads
      back as the series and the number `lower + k`; so the IDs are in strictly
      increasing order of number and pairwise distinct. */
  lemma IdsOfReadBack(rg: Range)
    requires |rg.series| > 0 && AllLetters(rg.series) && rg.lower <= rg.upper
    ensures |IdsOf(rg)| == rg.upper - rg.lower + 1 >= 1
    ensures forall k :: 0 <= k < |IdsOf(rg)| ==>
              && IdsOf(rg)[k] == rg.series + Pad(rg.lower + k)
              && MatchEndpoint(IdsOf(rg)[k]) == Some(Endpoint(rg.series, Pad(rg.lower + k)))
              && IdNumber(IdsOf(rg)[k]) == Some(rg.lower + k)
    ensures forall j, k :: 0 <= j < k < |IdsOf(rg)| ==>
              IdNumber(IdsOf(rg)[j]).value < IdNumber(IdsOf(rg)[k]).value && IdsOf(rg)[j] != IdsOf(rg)[k]
  {
    var ids := IdsOf(rg);
    forall k | 0 <= k < |ids|
      ensures ids[k] == rg.series + Pad(rg.lower + k)
      ensures MatchEndpoint(ids[k]) == Some(Endpoint(rg.series, Pad(rg.lower + k)))
      ensures IdNumber(ids[k]) == Some(rg.lower + k)
    {
      IdReadBack(rg.series, rg.lower + k);
    }
  }

  // ---------------------------------------------------------------------------
  // parseMinifigIds
  // ---------------------------------------------------------------------------

  /** What one comma-separated item contributes: the trimmed item itself when it
      has no range separator (unchecked and unpadded, even when empty), else its
      range expansion. */
  function ExpandItem(item: string): Result<seq<string>, RangeError> {
    var trimmed := Trim(item);
    if !Contains(trimmed, RangeSep) then Ok([trimmed]) else RangeIds(trimmed)
  }

  /** The outcome of each item, in order. */
  function Outcomes(items: seq<string>): seq<Result<seq<string>, RangeError>> {
    seq(|items|, k requires 0 <= k < |items| => ExpandItem(items[k]))
  }

  /** Concatenates the IDs of the outcomes left to right; the first failed
      outcome aborts with its error. */
  function Collect(outcomes: seq<Result<seq<string>, RangeError>>): Result<seq<string>, RangeError> {
    if outcomes == [] then Ok([])
    else
      match Collect(outcomes[..|outcomes| - 1])
      case Err(e) => Err(e)
      case Ok(ids) =>
        match outcomes[|outcomes| - 1]
        case Err(e) => Err(e)
        case Ok(more) => Ok(ids + more)
  }

  /** What `parseMinifigIds(data)` returns, or the error it throws. */
  function ParseIds(data: string): Result<seq<string>, RangeError> {
    Collect(Outcomes(Split(data, ListSep)))
  }

  /** `parseMinifigIds(data)`, with the `forEach` over the items and the array
      it pushes onto. */
  method ParseMinifigIds(data: string) returns (r: Result<seq<string>, RangeError>)
    ensures r == ParseIds(data)
  {
    var items := Split(data, ListSep);
    ghost var outcomes := Outcomes(items);
    var ids: seq<string> := [];
    for i := 0 to |items|
      invariant Collect(outcomes[..i]) == Ok(ids)
    {
      assert outcomes[..i + 1][..i] == outcomes[..i];
      var trimmed := Trim(items[i]);
      if !Contains(trimmed, RangeSep) {
        ids := ids + [trimmed];
      } else {
        var range := GetIdsInRange(trimmed);
        if range.Err? {
          CollectAppend(outcomes[..i + 1], outcomes[i + 1..]);
          assert outcomes[..i + 1] + outcomes[i + 1..] == outcomes;
          return Err(range.error);
        }
        ids := ids + range.value;
      }
    }
    assert outcomes[..|items|] == outcomes;
    r := Ok(ids);
  }

  /** Collecting two lists of outcomes one after the other is collecting their
      concatenation: the first error wins, otherwise the IDs are concatenated. */
  lemma {:induction false} CollectAppend(a: seq<Result<seq<string>, RangeError>>, b: seq<Result<seq<string>, RangeError>>)
    ensures Collect(a + b) ==
              match Collect(a)
              case Err(e) => Err(e)
              case Ok(x) =>
                match Collect(b)
                case Err(e) => Err(e)
                case Ok(y) => Ok(x + y)
    decreases |b|
  {
    if b == [] {
      assert a + b == a;
      assert Collect(b) == Ok([]);
      if Collect(a).Ok? {
        assert Collect(a).value + [] == Collect(a).value;
      }
    } else {
      var b', last := b[..|b| - 1], b[|b| - 1];
      assert (a + b)[..|a + b| - 1] == a + b';
      assert (a + b)[|a + b| - 1] == last;
      CollectAppend(a, b');
      match Collect(a)
      case Err(e) =>
      case Ok(x) =>
        match Collect(b')
        case Err(e) =>
        case Ok(y) =>
          match last
          case Err(e) =>
          case Ok(z) =>
            assert x + y + z == x + (y + z);
    }
  }

  /** Collecting succeeds exactly when every outcome is a success. */
  lemma {:induction false} CollectOkIff(outcomes: seq<Result<seq<string>, RangeError>>)
    ensures Collect(outcomes).Ok? <==> forall k :: 0 <= k < |outcomes| ==> outcomes[k].Ok?
  {
    if outcomes != [] {
      var init := outcomes[..|outcomes| - 1];
      CollectOkIff(init);
      assert forall k :: 0 <= k < |init| ==> init[k] == outcomes[k];
    }
  }

  /** When item `j` is the first that fails, the whole parse fails with its error:
      one bad range aborts everything. */
  lemma ParseIdsFirstError(data: string, j: nat)
    requires j < |Split(data, ListSep)|
    requires ExpandItem(Split(data, ListSep)[j]).Err?
    requires forall k :: 0 <= k < j ==> ExpandItem(Split(data, ListSep)[k]).Ok?
    ensures ParseIds(data) == Err(ExpandItem(Split(data, ListSep)[j]).error)
  {
    var outcomes := Outcomes(Split(data, ListSep));
    var before := outcomes[..j];
    CollectOkIff(before);
    assert outcomes[..j + 1][..j] == before;
    CollectAppend(outcomes[..j + 1], outcomes[j + 1..]);
    assert outcomes[..j + 1] + outcomes[j + 1..] == outcomes;
  }

  /** The parse succeeds exactly when every item expands. */
  lemma ParseIdsOkIff(data: string)
    ensures ParseIds(data).Ok? <==> forall item :: item in Split(data, ListSep) ==> ExpandItem(item).Ok?
  {
    var items := Split(data, ListSep);
    OutcomesOkIff(items);
    assert (forall item :: item in items ==> ExpandItem(item).Ok?) <==>
           (forall k :: 0 <= k < |items| ==> ExpandItem(items[k]).Ok?);
  }

  lemma OutcomesOkIff(items: seq<string>)
    ensures Collect(Outcomes(items)).Ok? <==> forall k :: 0 <= k < |items| ==> ExpandItem(items[k]).Ok?
  {
    var outcomes := Outcomes(items);
    CollectOkIff(outcomes);
    assert forall k :: 0 <= k < |items| ==> outcomes[k] == ExpandItem(items[k]);
  }

  /** The number of IDs an item contributes, computed from its range bounds. */
  function ItemCount(item: string): nat {
    var trimmed := Trim(item);
    if !Contains(trimmed, RangeSep) then 1
    else
      match ParseRange(trimmed)
      case Ok(rg) => rg.upper - rg.lower + 1
      case Err(_) => 0
  }

  function TotalCount(items: seq<string>): nat {
    if items == [] then 0 else TotalCount(items[..|items| - 1]) + ItemCount(items[|items| - 1])
  }

  /** A successful expansion of items holds as many IDs as the items' counts add
      up to, and at least one per item. */
  lemma {:induction false} CollectLength(items: seq<string>)
    requires Collect(Outcomes(items)).Ok?
    ensures |Collect(Outcomes(items)).value| == TotalCount(items) >= |items|
  {
    if items != [] {
      var init := items[..|items| - 1];
      assert Outcomes(items)[..|items| - 1] == Outcomes(init);
      CollectLength(init);
      var last := Trim(items[|items| - 1]);
      if Contains(last, RangeSep) {
        IdsOfReadBack(ParseRange(last).value);
      }
    }
  }

  /** A successful parse holds as many IDs as the items' counts add up to, and at
      least one per comma-separated item. */
  lemma ParseIdsLength(data: string)
    requires ParseIds(data).Ok?
    ensures |ParseIds(data).value| == TotalCount(Split(data, ListSep)) >= |Split(data, ListSep)| >= 1
  {
    CollectLength(Split(data, ListSep));
  }

  lemma {:induction false} CollectLiterals(items: seq<string>)
    requires forall k :: 0 <= k < |items| ==> !Contains(Trim(items[k]), RangeSep)
    ensures Collect(Outcomes(items)).Ok?
    ensures var ids := Collect(Outcomes(items)).value;
            |ids| == |items| && forall k :: 0 <= k < |items| ==> ids[k] == Trim(items[k])
  {
    if items != [] {
      var init, last := items[..|items| - 1], items[|items| - 1];
      var o := Outcomes(items);
      assert o[..|o| - 1] == Outcomes(init);
      CollectLiterals(init);
      assert o[|o| - 1] == ExpandItem(last) == Ok([Trim(last)]);
      var ids := Collect(Outcomes(init)).value;
      assert Collect(o) == Ok(ids + [Trim(last)]);
    }
  }

  /** A list of items none of which is a range expands to the trimmed items, one
      each and in order (empty items included): as many IDs as there are commas,
      plus one. */
  lemma ParseIdsLiterals(data: string)
    requires forall k :: 0 <= k < |Split(data, ListSep)| ==> !Contains(Trim(Split(data, ListSep)[k]), RangeSep)
    ensures var items := Split(data, ListSep);
            && ParseIds(data).Ok?
            && |ParseIds(data).value| == |items| == Count(data, ',') + 1
            && forall k :: 0 <= k < |items| ==> ParseIds(data).value[k] == Trim(items[k])
  {
    CollectLiterals(Split(data, ListSep));
    SplitCount(data, ',');
  }
}
