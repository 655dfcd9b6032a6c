/**
  `re.search('(\d+):(\d+):(\d+)', s)` as `Duration.parse_time` uses it: the leftmost
  position where the pattern matches, with the groups Python's backtracking matcher
  reports there, and the number of seconds they denote.

  A match is recorded by where it starts and how long its three groups are; the
  captured strings are cut out of the text only once the match is known.
*/
module TimePattern {
  import opened Results
  import opened Decimal

  /** Lengths of the three captured groups: hours, minutes, seconds. */
  datatype Spans = Spans(hours: nat, minutes: nat, seconds: nat)

  /** A successful search: where the match starts and how long its groups are. */
  datatype Match = Match(start: nat, spans: Spans)

  /** The three captured strings. */
  datatype Groups = Groups(hours: string, minutes: string, seconds: string)

  /** Where the minutes group of a match starting at `i` begins. */
  function MinutesAt(i: nat, p: Spans): nat {
    i + p.hours + 1
  }

  /** Where the seconds group of a match starting at `i` begins. */
  function SecondsAt(i: nat, p: Spans): nat {
    i + p.hours + p.minutes + 2
  }

  /** Where a match starting at `i` ends. */
  function End(i: nat, p: Spans): nat {
    SecondsAt(i, p) + p.seconds
  }

  /** Every character of `s[lo..hi]` is a digit. */
  predicate Digits(s: string, lo: nat, hi: nat)
    requires lo <= hi <= |s|
  {
    forall x :: lo <= x < hi ==> IsDigit(s[x])
  }

  /**
    `s[i..]` begins with SOME match of the pattern whose groups have the lengths `p`:
    three non-empty digit runs with a colon after each of the first two.
  */
  predicate Fits(s: string, i: nat, p: Spans) {
    && p.hours > 0 && p.minutes > 0 && p.seconds > 0
    && End(i, p) <= |s|
    && Digits(s, i, i + p.hours) && s[i + p.hours] == ':'
    && Digits(s, MinutesAt(i, p), MinutesAt(i, p) + p.minutes) && s[MinutesAt(i, p) + p.minutes] == ':'
    && Digits(s, SecondsAt(i, p), End(i, p))
  }

  /** The match a greedy `\d+` takes: the seconds group runs to the end of its digit run. */
  predicate GreedyFits(s: string, i: nat, p: Spans) {
    Fits(s, i, p) && (End(i, p) == |s| || !IsDigit(s[End(i, p)]))
  }

  /** No match of the pattern starts before position `i`. */
  ghost predicate NoFitBefore(s: string, i: nat) {
    forall j, p :: 0 <= j < i ==> !Fits(s, j, p)
  }

  /** The strings a match with spans `p` at `i` captures. */
  function Captured(s: string, i: nat, p: Spans): Groups
    requires End(i, p) <= |s|
  {
    var j, k := MinutesAt(i, p), SecondsAt(i, p);
    Groups(s[i..i + p.hours], s[j..j + p.minutes], s[k..End(i, p)])
  }

  /** The text a match capturing `g` covers. */
  function Text(g: Groups): string {
    g.hours + ":" + g.minutes + ":" + g.seconds
  }

  /** The lengths of the groups `g`. */
  function SpansOf(g: Groups): Spans {
    Spans(|g.hours|, |g.minutes|, |g.seconds|)
  }

  /** Length of the run of digits starting at `i`. */
  function DigitRun(s: string, i: nat): (n: nat)
    requires i <= |s|
    ensures i + n <= |s| && Digits(s, i, i + n)
    ensures i + n == |s| || !IsDigit(s[i + n])
    decreases |s| - i
  {
    if i < |s| && IsDigit(s[i]) then 1 + DigitRun(s, i + 1) else 0
  }

  /** A run of `n` digits from `i` lies within the digit run from `i`, and is all of it if no digit follows. */
  lemma {:induction false} DigitRunExact(s: string, i: nat, n: nat)
    requires i + n <= |s| && Digits(s, i, i + n)
    ensures DigitRun(s, i) >= n
    ensures (i + n == |s| || !IsDigit(s[i + n])) ==> DigitRun(s, i) == n
    decreases n
  {
    if n > 0 {
      DigitRunExact(s, i + 1, n - 1);
    }
  }

  /** The groups the pattern captures when anchored at `i`, if it matches there. */
  function MatchAt(s: string, i: nat): (m: Option<Spans>)
    requires i <= |s|
    ensures m.Some? ==> GreedyFits(s, i, m.value)
  {
    var a := DigitRun(s, i);
    if a == 0 || i + a == |s| || s[i + a] != ':' then None
    else
      var b := DigitRun(s, i + a + 1);
      if b == 0 || i + a + 1 + b == |s| || s[i + a + 1 + b] != ':' then None
      else
        var c := DigitRun(s, i + a + b + 2);
        if c == 0 then None else Some(Spans(a, b, c))
  }

  /** The anchored match, spelled out from the digit runs it finds. */
  lemma MatchAtRuns(s: string, i: nat, p: Spans)
    requires SecondsAt(i, p) <= |s|
    requires DigitRun(s, i) == p.hours > 0 && s[i + p.hours] == ':'
    requires DigitRun(s, MinutesAt(i, p)) == p.minutes > 0 && s[MinutesAt(i, p) + p.minutes] == ':'
    requires DigitRun(s, SecondsAt(i, p)) > 0
    ensures MatchAt(s, i) == Some(Spans(p.hours, p.minutes, DigitRun(s, SecondsAt(i, p))))
  {
  }

  /**
    Any match at `i` forces the anchored match to succeed with the same hours and
    minutes and the whole digit run from where its seconds begin, which is at least
    as long as its seconds group.
  */
  lemma MatchAtComplete(s: string, i: nat, p: Spans)
    requires Fits(s, i, p)
    ensures DigitRun(s, SecondsAt(i, p)) >= p.seconds
    ensures MatchAt(s, i) == Some(Spans(p.hours, p.minutes, DigitRun(s, SecondsAt(i, p))))
  {
    DigitRunExact(s, i, p.hours);
    DigitRunExact(s, MinutesAt(i, p), p.minutes);
    DigitRunExact(s, SecondsAt(i, p), p.seconds);
    MatchAtRuns(s, i, p);
  }

  /** A greedy match at `i` is exactly the anchored match. */
  lemma MatchAtGreedy(s: string, i: nat, p: Spans)
    requires GreedyFits(s, i, p)
    ensures MatchAt(s, i) == Some(p)
  {
    MatchAtComplete(s, i, p);
    DigitRunExact(s, SecondsAt(i, p), p.seconds);
  }

  /** Where the anchored match fails, no match of any kind starts. */
  lemma NoFitAt(s: string, i: nat)
    requires i <= |s|
    ensures MatchAt(s, i).None? ==> forall p :: !Fits(s, i, p)
  {
    forall p | Fits(s, i, p)
      ensures MatchAt(s, i).Some?
    {
      MatchAtComplete(s, i, p);
    }
  }

  /** The search loop of `re.search`, trying start positions `i`, `i + 1`, ..., `|s|`. */
  function SearchFrom(s: string, i: nat): (m: Option<Match>)
    requires i <= |s|
    ensures m.Some? ==> i <= m.value.start <= |s| && GreedyFits(s, m.value.start, m.value.spans)
    ensures m.Some? ==> forall j, p :: i <= j < m.value.start ==> !Fits(s, j, p)
    ensures m.None? ==> forall j, p :: i <= j <= |s| ==> !Fits(s, j, p)
    decreases |s| - i
  {
    NoFitAt(s, i);
    match MatchAt(s, i)
    case Some(p) => Some(Match(i, p))
    case None => if i == |s| then None else SearchFrom(s, i + 1)
  }

  /** `re.search('(\d+):(\d+):(\d+)', s)`. */
  function Search(s: string): (m: Option<Match>)
    ensures m.Some? ==> m.value.start <= |s| && GreedyFits(s, m.value.start, m.value.spans)
    ensures m.Some? ==> NoFitBefore(s, m.value.start)
    ensures m.None? ==> forall j, p :: 0 <= j <= |s| ==> !Fits(s, j, p)
  {
    SearchFrom(s, 0)
  }

  /** The leftmost greedy match is the only match that is leftmost and greedy. */
  lemma LeftmostUnique(s: string, m: Match, i: nat, p: Spans)
    requires GreedyFits(s, m.start, m.spans) && NoFitBefore(s, m.start)
    requires GreedyFits(s, i, p) && NoFitBefore(s, i)
    ensures i == m.start && p == m.spans
  {
    assert Fits(s, m.start, m.spans);
    assert i == m.start;
    MatchAtGreedy(s, i, p);
    MatchAtGreedy(s, i, m.spans);
  }

  /** The digit positions of a range are the digit characters of its slice. */
  lemma DigitsSlice(s: string, lo: nat, hi: nat)
    requires lo <= hi <= |s|
    ensures Digits(s, lo, hi) <==> IsDigits(s[lo..hi])
  {
    if IsDigits(s[lo..hi]) {
      forall x | lo <= x < hi
        ensures IsDigit(s[x])
      {
        assert s[x] == s[lo..hi][x - lo];
      }
    }
  }

  /** The groups a match captures are numbers. */
  lemma CapturedNumbers(s: string, i: nat, p: Spans)
    requires Fits(s, i, p)
    ensures var g := Captured(s, i, p);
      IsNumber(g.hours) && IsNumber(g.minutes) && IsNumber(g.seconds)
  {
    DigitsSlice(s, i, i + p.hours);
    DigitsSlice(s, MinutesAt(i, p), MinutesAt(i, p) + p.minutes);
    DigitsSlice(s, SecondsAt(i, p), End(i, p));
  }

  /** A match at `i` is an occurrence of the text of the groups it captures. */
  lemma FitsIsText(s: string, i: nat, p: Spans)
    requires Fits(s, i, p)
    ensures End(i, p) == i + |Text(Captured(s, i, p))|
    ensures s[i..End(i, p)] == Text(Captured(s, i, p))
  {
    var j, k, e := MinutesAt(i, p), SecondsAt(i, p), End(i, p);
    var a := i + p.hours;
    assert s[i..e] == s[i..a] + s[a..j] + s[j..j + p.minutes] + s[j + p.minutes..k] + s[k..e];
    assert s[a..j] == ":";
    assert s[j + p.minutes..k] == ":";
  }

  /** A slice of a slice is a slice. */
  lemma SubSlice(s: string, i: nat, t: string, x: nat, y: nat)
    requires i + |t| <= |s| && s[i..i + |t|] == t
    requires x <= y <= |t|
    ensures s[i + x..i + y] == t[x..y]
  {
    forall n | 0 <= n < y - x
      ensures s[i + x..i + y][n] == t[x..y][n]
    {
      assert s[i..i + |t|][x + n] == s[i + x + n];
    }
  }

  /** The text of `g` splits back into the groups and the two colons. */
  lemma TextParts(g: Groups)
    ensures var t, a, b := Text(g), |g.hours|, |g.minutes|;
      && |t| == a + b + |g.seconds| + 2
      && t[..a] == g.hours && t[a] == ':'
      && t[a + 1..a + 1 + b] == g.minutes && t[a + 1 + b] == ':'
      && t[a + b + 2..] == g.seconds
  {
  }

  /** An occurrence at `i` of the text of `g` captures `g`, with colons between the groups. */
  lemma TextGroups(s: string, i: nat, g: Groups)
    requires i + |Text(g)| <= |s| && s[i..i + |Text(g)|] == Text(g)
    ensures End(i, SpansOf(g)) == i + |Text(g)|
    ensures Captured(s, i, SpansOf(g)) == g
    ensures s[i + |g.hours|] == ':' && s[i + |g.hours| + 1 + |g.minutes|] == ':'
  {
    var t, a, b := Text(g), |g.hours|, |g.minutes|;
    TextParts(g);
    SubSlice(s, i, t, 0, a);
    SubSlice(s, i, t, a + 1, a + 1 + b);
    SubSlice(s, i, t, a + b + 2, |t|);
    assert s[i + a] == t[a];
    assert s[i + a + 1 + b] == t[a + 1 + b];
  }

  /** An occurrence at `i` of the text of three numbers is a match there capturing them. */
  lemma TextIsFit(s: string, i: nat, g: Groups)
    requires IsNumber(g.hours) && IsNumber(g.minutes) && IsNumber(g.seconds)
    requires i + |Text(g)| <= |s| && s[i..i + |Text(g)|] == Text(g)
    ensures Fits(s, i, SpansOf(g)) && Captured(s, i, SpansOf(g)) == g
    ensures End(i, SpansOf(g)) == i + |Text(g)|
  {
    var p := SpansOf(g);
    TextGroups(s, i, g);
    DigitsSlice(s, i, i + p.hours);
    DigitsSlice(s, MinutesAt(i, p), MinutesAt(i, p) + p.minutes);
    DigitsSlice(s, SecondsAt(i, p), End(i, p));
  }

  /** `timedelta(hours=h, minutes=m, seconds=s)` in seconds. */
  function TotalSeconds(g: Groups): nat
    requires IsDigits(g.hours) && IsDigits(g.minutes) && IsDigits(g.seconds)
  {
    Value(g.hours) * 3600 + Value(g.minutes) * 60 + Value(g.seconds)
  }

  /** The seconds a match at `i` denotes. */
  function Seconds(s: string, i: nat, p: Spans): nat
    requires Fits(s, i, p)
  {
    CapturedNumbers(s, i, p);
    TotalSeconds(Captured(s, i, p))
  }

  /**
    `Duration.parse_time` in seconds: the leftmost greedy match converted with
    `h * 3600 + m * 60 + s`, or zero when the pattern matches nowhere.
  */
  function ParseTime(s: string): (secs: nat)
    ensures (forall j, p :: 0 <= j <= |s| ==> !Fits(s, j, p)) ==> secs == 0
    ensures forall i, p :: GreedyFits(s, i, p) && NoFitBefore(s, i) ==> secs == Seconds(s, i, p)
  {
    match Search(s)
    case None => 0
    case Some(m) =>
      assert forall i, p :: GreedyFits(s, i, p) && NoFitBefore(s, i) ==> i == m.start && p == m.spans by {
        forall i, p | GreedyFits(s, i, p) && NoFitBefore(s, i)
          ensures i == m.start && p == m.spans
        {
          LeftmostUnique(s, m, i, p);
        }
      }
      Seconds(s, m.start, m.spans)
  }

  /** A text that is exactly one match parses to the seconds its groups denote. */
  lemma ParseTimeWhole(g: Groups)
    requires IsNumber(g.hours) && IsNumber(g.minutes) && IsNumber(g.seconds)
    ensures ParseTime(Text(g)) == TotalSeconds(g)
  {
    var s := Text(g);
    assert s[0..|s|] == s;
    TextIsFit(s, 0, g);
    assert GreedyFits(s, 0, SpansOf(g));
    assert NoFitBefore(s, 0);
  }

  /** Parsing `str(h) + ':' + str(m) + ':' + str(s)` gives back `h * 3600 + m * 60 + s`. */
  lemma ParseTimeRender(h: nat, m: nat, sec: nat)
    ensures ParseTime(Text(Groups(Render(h), Render(m), Render(sec)))) == h * 3600 + m * 60 + sec
  {
    ParseTimeWhole(Groups(Render(h), Render(m), Render(sec)));
    ValueRender(h);
    ValueRender(m);
    ValueRender(sec);
  }

  /** `01:30:00` is one and a half hours. */
  lemma ParseTimeExampleHours()
    ensures ParseTime("01:30:00") == 5400
  {
    var g := Groups("01", "30", "00");
    HoursGroups();
    ParseTimeWhole(g);
  }

  /** The groups of `01:30:00` and their values. */
  lemma HoursGroups()
    ensures var g := Groups("01", "30", "00");
      && IsNumber(g.hours) && IsNumber(g.minutes) && IsNumber(g.seconds)
      && Text(g) == "01:30:00" && TotalSeconds(g) == 5400
  {
    var g := Groups("01", "30", "00");
    assert Text(g)[1] == '1';
    ValueTwoDigits('0', '1');
    ValueTwoDigits('3', '0');
    ValueTwoDigits('0', '0');
  }

  /** `00:05:10` is 310 seconds. */
  lemma ParseTimeExampleMinutes()
    ensures ParseTime("00:05:10") == 310
  {
    var g := Groups("00", "05", "10");
    MinutesGroups();
    ParseTimeWhole(g);
  }

  /** The groups of `00:05:10` and their values. */
  lemma MinutesGroups()
    ensures var g := Groups("00", "05", "10");
      && IsNumber(g.hours) && IsNumber(g.minutes) && IsNumber(g.seconds)
      && Text(g) == "00:05:10" && TotalSeconds(g) == 310
  {
    var g := Groups("00", "05", "10");
    assert Text(g)[4] == '5';
    ValueTwoDigits('0', '0');
    ValueTwoDigits('0', '5');
    ValueTwoDigits('1', '0');
  }

  /** The value of a two-digit number. */
  lemma ValueTwoDigits(x: char, y: char)
    requires IsDigit(x) && IsDigit(y)
    ensures Value([x, y]) == DigitValue(x) * 10 + DigitValue(y)
  {
    assert [x][..0] == [];
    assert Value([x]) == DigitValue(x);
    assert [x, y][..1] == [x];
    assert Value([x, y]) == Value([x]) * 10 + DigitValue(y);
  }
}
