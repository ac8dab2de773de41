/** Ticket numbering: `QMS-<year>-<sequence>`, the next one taken from the greatest stored string. */
module Tickets {
  import opened Common
  import opened Decimal

  const WIDTH := 5
  const LAST_PADDED := 99999   // the greatest sequence that fits the padding
  const LAST_FRESH := 100000   // the greatest sequence ever issued: as a string it sorts below 99999

  function Prefix(year: nat): string {
    "QMS-" + Print(year) + "-"
  }

  function Number(year: nat, sequence: nat): string {
    Prefix(year) + Padded(sequence, WIDTH)
  }

  predicate StartsWith(s: string, prefix: string) {
    |prefix| <= |s| && s[..|prefix|] == prefix
  }

  function Matching(numbers: seq<string>, prefix: string): (ms: seq<string>)
    ensures forall s :: s in ms <==> s in numbers && StartsWith(s, prefix)
  {
    if numbers == [] then []
    else
      var rest := Matching(numbers[1..], prefix);
      assert forall s :: s in numbers <==> s == numbers[0] || s in numbers[1..];
      if StartsWith(numbers[0], prefix) then [numbers[0]] + rest else rest
  }

  /** What ordering by the string column, descending, puts first. */
  function Greatest(xs: seq<string>): (g: string)
    requires xs != []
    ensures g in xs && forall x :: x in xs ==> x == g || StringLess(x, g)
  {
    if |xs| == 1 then xs[0]
    else
      var g := Greatest(xs[1..]);
      assert forall x :: x in xs <==> x == xs[0] || x in xs[1..];
      StringOrderIsTotal(xs[0], g);
      if StringLess(g, xs[0]) then
        assert forall x :: x in xs[1..] ==> x == g || StringLess(x, g);
        GreatestMoves(xs[1..], g, xs[0]);
        xs[0]
      else g
  }

  lemma GreatestMoves(xs: seq<string>, g: string, h: string)
    requires (forall x :: x in xs ==> x == g || StringLess(x, g)) && StringLess(g, h)
    ensures forall x :: x in xs ==> StringLess(x, h)
  {
    forall x | x in xs ensures StringLess(x, h) {
      if x != g { StringOrderIsTransitive(x, g, h); }
    }
  }

  function AfterLastDash(s: string): (t: string)
    ensures '-' !in t
  {
    if s == [] || s[|s| - 1] == '-' then [] else AfterLastDash(s[..|s| - 1]) + [s[|s| - 1]]
  }

  /** Everything in the column ends in a decimal sequence, so parsing it back cannot fail. */
  ghost predicate WellFormed(numbers: seq<string>) {
    forall s :: s in numbers ==> AllDigits(AfterLastDash(s))
  }

  /** The number the next ticket of `year` gets. */
  function NextNumber(numbers: seq<string>, year: nat): (next: string)
    requires WellFormed(numbers)
    ensures WellFormed(numbers + [next])
  {
    var mine := Matching(numbers, Prefix(year));
    var sequence := if mine == [] then 1 else Parse(AfterLastDash(Greatest(mine))) + 1;
    ParsePadded(sequence, WIDTH);
    ReadsBackSequence(Prefix(year), Padded(sequence, WIDTH));
    Number(year, sequence)
  }

  lemma {:induction false} ReadsBackSequence(p: string, digits: string)
    requires AllDigits(digits) && p != [] && p[|p| - 1] == '-'
    ensures AfterLastDash(p + digits) == digits
    decreases |digits|
  {
    if digits == [] {
      assert p + digits == p;
    } else {
      var init := digits[..|digits| - 1];
      ReadsBackSequence(p, init);
      assert (p + digits)[..|p + digits| - 1] == p + init;
      assert digits == init + [digits[|digits| - 1]];
    }
  }

  datatype TicketError = LineNotFound | LineInactive | NumberTaken

  /** One creation against the ticket_number column, which is unique. `line` is what looking up the production
      line gives: nothing, or whether it is active. */
  function Attempted(numbers: seq<string>, line: Option<bool>, year: nat): Result<string, TicketError>
    requires WellFormed(numbers)
  {
    if line.None? then Err(LineNotFound)
    else if !line.value then Err(LineInactive)
    else if NextNumber(numbers, year) in numbers then Err(NumberTaken)
    else Ok(NextNumber(numbers, year))
  }

  function Stored(numbers: seq<string>, result: Result<string, TicketError>): seq<string> {
    if result.Ok? then numbers + [result.value] else numbers
  }

  class TicketDesk {
    var lines: map<string, bool>  // production lines and whether they are active
    var numbers: seq<string>      // the ticket_number column

    constructor (lines: map<string, bool>)
      ensures this.lines == lines && numbers == []
    {
      this.lines, numbers := lines, [];
    }

    function Line(lineId: string): Option<bool>
      reads this
    {
      if lineId in lines then Some(lines[lineId]) else None
    }

    method GenerateTicketNumber(year: nat) returns (number: string)
      requires WellFormed(numbers)
      ensures number == NextNumber(numbers, year)
    {
      var prefix := Prefix(year);
      var mine := Matching(numbers, prefix);
      var nextSeq := 1;
      if mine != [] {
        nextSeq := Parse(AfterLastDash(Greatest(mine))) + 1;
      }
      number := prefix + Padded(nextSeq, WIDTH);
    }

    /** Stores the ticket under the next number; the unique column refuses a number it already holds. */
    method CreateTicket(lineId: string, year: nat) returns (result: Result<string, TicketError>)
      requires WellFormed(numbers)
      modifies `numbers
      ensures WellFormed(numbers)
      ensures result == Attempted(old(numbers), Line(lineId), year)
      ensures numbers == Stored(old(numbers), result)
      ensures result.Ok? ==> result.value !in old(numbers)
    {
      if lineId !in lines {
        return Err(LineNotFound);
      }
      if !lines[lineId] {
        return Err(LineInactive);
      }
      var number := GenerateTicketNumber(year);
      if number in numbers {
        return Err(NumberTaken);
      }
      numbers := numbers + [number];
      return Ok(number);
    }
  }

  // ---------- Whole runs ----------

  datatype Attempt = Attempt(line: Option<bool>, year: nat)

  /** The column after a run of attempts on an empty one. */
  function Column(run: seq<Attempt>): (numbers: seq<string>)
    ensures WellFormed(numbers)
  {
    if run == [] then []
    else
      var before, a := Column(run[..|run| - 1]), run[|run| - 1];
      Stored(before, Attempted(before, a.line, a.year))
  }

  /** What attempt `i` of the run answers. */
  function OutcomeAt(run: seq<Attempt>, i: nat): Result<string, TicketError>
    requires i < |run|
  {
    Attempted(Column(run[..i]), run[i].line, run[i].year)
  }

  /** Attempts of this year that find an active line. */
  function CountOf(run: seq<Attempt>, year: nat): nat {
    if run == [] then 0
    else CountOf(run[..|run| - 1], year) + if run[|run| - 1] == Attempt(Some(true), year) then 1 else 0
  }

  lemma YearsDoNotOverlap(a: nat, b: nat, sequence: nat)
    ensures StartsWith(Number(a, sequence), Prefix(b)) <==> a == b
  {
    var s := Number(a, sequence);
    if a == b {
      assert s[..|Prefix(b)|] == Prefix(b);
    } else if StartsWith(s, Prefix(b)) {
      var rest := s[|Prefix(b)|..];
      AfterTag(a, Padded(sequence, WIDTH));
      AfterTag(b, rest);
      assert s == Prefix(b) + rest;
      NoDash(Print(a));
      NoDash(Print(b));
      SplitFirst('-', Print(a), Padded(sequence, WIDTH), Print(b), rest);
      PrintInjective(a, b);
    }
  }

  lemma AfterTag(year: nat, rest: string)
    ensures (Prefix(year) + rest)[4..] == Print(year) + (['-'] + rest)
  {
    assert Prefix(year) + rest == "QMS-" + (Print(year) + (['-'] + rest));
  }

  lemma NoDash(s: string)
    requires AllDigits(s)
    ensures '-' !in s
  {
    assert forall i :: 0 <= i < |s| ==> IsDigit(s[i]) && s[i] != '-';
  }

  lemma {:induction false} PrintShort(n: nat, width: nat, bound: nat)
    requires width > 0 && n < bound && bound == PowerOfTen(width)
    ensures |Print(n)| <= width
    decreases width
  {
    if n < 10 {
    } else {
      assert PowerOfTen(width) == 10 * PowerOfTen(width - 1);
      PrintShort(n / 10, width - 1, PowerOfTen(width - 1));
    }
  }

  function PowerOfTen(k: nat): nat {
    if k == 0 then 1 else 10 * PowerOfTen(k - 1)
  }

  /** Within a year, string order agrees with numeric order on sequences that fit the padding. */
  lemma SequenceOrder(year: nat, a: nat, b: nat)
    requires a <= LAST_PADDED && b <= LAST_PADDED
    ensures StringLess(Number(year, a), Number(year, b)) <==> a < b
  {
    assert PowerOfTen(5) == 100000 by {
      assert PowerOfTen(1) == 10 && PowerOfTen(2) == 100 && PowerOfTen(3) == 1000 && PowerOfTen(4) == 10000;
    }
    PrintShort(a, WIDTH, 100000);
    PrintShort(b, WIDTH, 100000);
    ParsePadded(a, WIDTH);
    ParsePadded(b, WIDTH);
    PaddedWidth(a);
    PaddedWidth(b);
    OrdersAgree(Padded(a, WIDTH), Padded(b, WIDTH));
    CommonPrefixOrder(Prefix(year), Padded(a, WIDTH), Padded(b, WIDTH));
  }

  lemma PaddedWidth(n: nat)
    requires |Print(n)| <= WIDTH
    ensures |Padded(n, WIDTH)| == WIDTH
  {
    if |Print(n)| < WIDTH { ZerosSnoc(WIDTH - |Print(n)|); }
  }

  lemma LeadingDigit(n: nat)
    requires n >= 10
    ensures Print(n)[0] == Print(n / 10)[0]
  {
  }

  lemma LastNumbersLead()
    ensures Print(LAST_FRESH)[0] == '1' && Print(LAST_PADDED)[0] == '9'
  {
    LeadingDigit(100000);
    LeadingDigit(10000);
    LeadingDigit(1000);
    LeadingDigit(100);
    LeadingDigit(10);
    LeadingDigit(99999);
    LeadingDigit(9999);
    LeadingDigit(999);
    LeadingDigit(99);
    assert Print(1) == [DigitChar(1)] && Print(9) == [DigitChar(9)];
  }

  lemma LastNumbersFillThePadding()
    ensures Padded(LAST_FRESH, WIDTH) == Print(LAST_FRESH) && Padded(LAST_PADDED, WIDTH) == Print(LAST_PADDED)
  {
    AddsDigit(9999);
    AddsDigit(999);
    AddsDigit(99);
    AddsDigit(9);
    AddsDigit(99999);
    AddsDigit(10000);
    AddsDigit(1000);
    AddsDigit(100);
    AddsDigit(10);
    AddsDigit(1);
  }

  lemma AddsDigit(n: nat)
    requires n > 0
    ensures |Print(10 * n)| == |Print(n)| + 1 == |Print(10 * n + 9)|
  {
  }

  /** The six-digit sequence sorts below the five-digit ones it follows. */
  lemma OverflowSortsLow(year: nat)
    ensures StringLess(Number(year, LAST_FRESH), Number(year, LAST_PADDED))
  {
    LastNumbersLead();
    LastNumbersFillThePadding();
    CommonPrefixOrder(Prefix(year), Padded(LAST_FRESH, WIDTH), Padded(LAST_PADDED, WIDTH));
  }

  /** The first `n` numbers of a year. */
  function Sequences(year: nat, n: nat): (ns: seq<string>)
    ensures |ns| == n && forall i :: 0 <= i < n ==> ns[i] == Number(year, i + 1)
  {
    if n == 0 then [] else Sequences(year, n - 1) + [Number(year, n)]
  }

  /** The stored numbers of `year` are its first `n`, in order. */
  ghost predicate Holds(numbers: seq<string>, year: nat, n: nat) {
    n <= LAST_FRESH && Matching(numbers, Prefix(year)) == Sequences(year, n)
  }

  lemma NumberInjective(a: nat, j: nat, b: nat, k: nat)
    ensures Number(a, j) == Number(b, k) <==> a == b && j == k
  {
    if Number(a, j) == Number(b, k) {
      YearsDoNotOverlap(a, b, j);
      YearsDoNotOverlap(b, b, k);
      ParsePadded(j, WIDTH);
      ParsePadded(k, WIDTH);
      ReadsBackSequence(Prefix(a), Padded(j, WIDTH));
      ReadsBackSequence(Prefix(b), Padded(k, WIDTH));
    }
  }

  lemma InSequences(year: nat, n: nat, j: nat)
    requires j > 0
    ensures Number(year, j) in Sequences(year, n) <==> j <= n
  {
    if j <= n {
      assert Sequences(year, n)[j - 1] == Number(year, j);
    }
    forall i | 0 <= i < n && Sequences(year, n)[i] == Number(year, j) ensures i == j - 1 {
      NumberInjective(year, i + 1, year, j);
    }
  }

  /** What the descending string order puts first: the last sequence that fits the padding. */
  lemma GreatestHeld(year: nat, n: nat)
    requires 0 < n <= LAST_FRESH
    ensures Greatest(Sequences(year, n)) == Number(year, Min(n, LAST_PADDED))
  {
    var all := Sequences(year, n);
    var top := Min(n, LAST_PADDED);
    InSequences(year, n, top);
    var i :| 0 <= i < n && all[i] == Greatest(all);
    StringOrderIsTotal(all[i], Number(year, top));
    if i + 1 == LAST_FRESH {
      OverflowSortsLow(year);
    } else {
      SequenceOrder(year, top, i + 1);
    }
  }

  lemma NextFollows(numbers: seq<string>, year: nat, n: nat)
    requires WellFormed(numbers) && Holds(numbers, year, n)
    ensures NextNumber(numbers, year) == Number(year, Min(n + 1, LAST_FRESH))
    ensures NextNumber(numbers, year) in numbers <==> n == LAST_FRESH
  {
    if n > 0 {
      var top := Min(n, LAST_PADDED);
      GreatestHeld(year, n);
      ParsePadded(top, WIDTH);
      ReadsBackSequence(Prefix(year), Padded(top, WIDTH));
    }
    var k := Min(n + 1, LAST_FRESH);
    YearsDoNotOverlap(year, year, k);
    InSequences(year, n, k);
    assert Number(year, k) in Matching(numbers, Prefix(year)) <==> Number(year, k) in numbers;
  }

  lemma {:induction false} MatchingSnoc(numbers: seq<string>, x: string, prefix: string)
    ensures Matching(numbers + [x], prefix) == Matching(numbers, prefix) + if StartsWith(x, prefix) then [x] else []
  {
    if numbers == [] {
      assert numbers + [x] == [x];
    } else {
      assert (numbers + [x])[1..] == numbers[1..] + [x];
      MatchingSnoc(numbers[1..], x, prefix);
    }
  }

  /** One attempt: stored exactly while fewer than 100000 tickets of its year are, as the next sequence. */
  lemma AttemptDecided(numbers: seq<string>, a: Attempt, n: nat)
    requires WellFormed(numbers) && Holds(numbers, a.year, n) && a.line == Some(true)
    ensures Attempted(numbers, a.line, a.year) ==
            if n < LAST_FRESH then Ok(Number(a.year, n + 1)) else Err(NumberTaken)
  {
    NextFollows(numbers, a.year, n);
  }

  lemma AttemptKeepsHolds(numbers: seq<string>, a: Attempt, n: nat, y: nat, m: nat)
    requires WellFormed(numbers) && Holds(numbers, a.year, n) && Holds(numbers, y, m)
    ensures Holds(Stored(numbers, Attempted(numbers, a.line, a.year)), y,
                  if a == Attempt(Some(true), y) then Min(m + 1, LAST_FRESH) else m)
  {
    if a.line == Some(true) && n < LAST_FRESH {
      AttemptDecided(numbers, a, n);
      MatchingSnoc(numbers, Number(a.year, n + 1), Prefix(y));
      YearsDoNotOverlap(a.year, y, n + 1);
      if a.year == y { SameCount(y, m, n); }
    } else if a.line == Some(true) {
      AttemptDecided(numbers, a, n);
      if a.year == y { SameCount(y, m, n); }
    }
  }

  lemma SameCount(year: nat, m: nat, n: nat)
    requires Sequences(year, m) == Sequences(year, n)
    ensures m == n
  {
    assert |Sequences(year, m)| == |Sequences(year, n)|;
  }

  /** After any run, each year holds its first sequences: one per attempt that found an active line, up to
      100000. */
  lemma {:induction false} RunHolds(run: seq<Attempt>, y: nat)
    ensures Holds(Column(run), y, Min(CountOf(run, y), LAST_FRESH))
    decreases |run|
  {
    if run == [] {
      assert Matching(Column(run), Prefix(y)) == [];
    } else {
      var init, a := run[..|run| - 1], run[|run| - 1];
      RunHolds(init, y);
      RunHolds(init, a.year);
      AttemptKeepsHolds(Column(init), a, Min(CountOf(init, a.year), LAST_FRESH), y, Min(CountOf(init, y), LAST_FRESH));
    }
  }

  /** In any run over any years and lines, an attempt with an active line is stored if and only if fewer than
      100000 tickets of its year are stored, and the k-th of a year gets sequence k. From the 100001st on every
      attempt of that year fails, while other years go on: only the attempts of the same year count. */
  lemma KthTicket(run: seq<Attempt>, i: nat)
    requires i < |run| && run[i].line == Some(true)
    ensures var k := CountOf(run[..i], run[i].year) + 1;
            && OutcomeAt(run, i) == (if k <= LAST_FRESH then Ok(Number(run[i].year, k)) else Err(NumberTaken))
            && |Matching(Column(run[..i]), Prefix(run[i].year))| == Min(k - 1, LAST_FRESH)
  {
    var n := Min(CountOf(run[..i], run[i].year), LAST_FRESH);
    RunHolds(run[..i], run[i].year);
    AttemptDecided(Column(run[..i]), run[i], n);
  }

  /** No two stored tickets ever share a number. */
  lemma {:induction false} NumbersAreDistinct(run: seq<Attempt>)
    ensures forall i, j :: 0 <= i < j < |Column(run)| ==> Column(run)[i] != Column(run)[j]
    decreases |run|
  {
    if run == [] {
    } else {
      NumbersAreDistinct(run[..|run| - 1]);
    }
  }

  // ---------- The overflow ----------

  function Repeated(a: Attempt, n: nat): (run: seq<Attempt>)
    ensures |run| == n && forall i :: 0 <= i < n ==> run[i] == a
  {
    if n == 0 then [] else Repeated(a, n - 1) + [a]
  }

  lemma {:induction false} RepeatedCount(year: nat, n: nat)
    ensures CountOf(Repeated(Attempt(Some(true), year), n), year) == n
  {
    var a := Attempt(Some(true), year);
    if n == 0 {
    } else {
      RepeatedCount(year, n - 1);
      assert Repeated(a, n)[..n - 1] == Repeated(a, n - 1);
    }
  }

  lemma {:induction false} CountsOnlyItsYear(run: seq<Attempt>, year: nat)
    requires forall i :: 0 <= i < |run| ==> run[i].year != year
    ensures CountOf(run, year) == 0
    decreases |run|
  {
    if run == [] {
    } else {
      CountsOnlyItsYear(run[..|run| - 1], year);
    }
  }

  /** The overflow is real: the 100001st ticket of 2026 cannot be created, and the first of 2027 can. */
  lemma YearFillsUp()
    ensures var full := Repeated(Attempt(Some(true), 2026), LAST_FRESH);
            && OutcomeAt(full + [Attempt(Some(true), 2026)], LAST_FRESH) == Err(NumberTaken)
            && OutcomeAt(full + [Attempt(Some(true), 2027)], LAST_FRESH) == Ok(Number(2027, 1))
  {
    var full := Repeated(Attempt(Some(true), 2026), LAST_FRESH);
    var again, later := full + [Attempt(Some(true), 2026)], full + [Attempt(Some(true), 2027)];
    assert again[..LAST_FRESH] == full == later[..LAST_FRESH];
    RepeatedCount(2026, LAST_FRESH);
    CountsOnlyItsYear(full, 2027);
    KthTicket(again, LAST_FRESH);
    KthTicket(later, LAST_FRESH);
  }
}
