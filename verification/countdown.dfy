/** The match countdown (`setupCountdowns.updateAll`): for one match card, the
    text shown for a target instant given the current instant. Both instants
    are whole milliseconds since the epoch; the target is `None` when the
    card's `data-datetime` does not parse to a date. */
module Countdown {
  import opened Wrappers
  import opened Text

  const Unscheduled: string := "TBD"
  const Finished: string := "Finished"

  /** Whole days, hours, minutes and seconds of a remaining duration. */
  datatype Remaining = Remaining(days: nat, hours: nat, minutes: nat, seconds: nat) {

    /** Hours, minutes and seconds are within one day, hour and minute. */
    predicate Valid() {
      hours < 24 && minutes < 60 && seconds < 60
    }

    /** The milliseconds these components stand for. A second is 1000 ms, a
        minute 60_000, an hour 3_600_000 and a day 86_400_000; the script
        writes these as `1000*60*60*24` and its prefixes. */
    function Millis(): nat {
      days * 86_400_000 + hours * 3_600_000 + minutes * 60_000 + seconds * 1000
    }
  }

  /** Splits a millisecond difference the way the script does:
      `floor(diff / day)`, `floor(diff / hour) % 24`, `floor(diff / minute) % 60`,
      `floor(diff / second) % 60`. The components are in range, and they
      account for the whole difference except for its sub-second part. */
  function Decompose(diff: nat): (r: Remaining)
    ensures r.Valid()
    ensures r.Millis() <= diff < r.Millis() + 1000
  {
    DecomposeAccounts(diff);
    Remaining(diff / 86_400_000, (diff / 3_600_000) % 24, (diff / 60_000) % 60, (diff / 1000) % 60)
  }

  /** Each coarser unit is the finer one divided by its radix, so the
      weighted components add up to the whole seconds in `diff`. */
  lemma DecomposeAccounts(diff: nat)
    ensures var s, mi, h, d := diff / 1000, diff / 60_000, diff / 3_600_000, diff / 86_400_000;
      d * 86_400_000 + (h % 24) * 3_600_000 + (mi % 60) * 60_000 + (s % 60) * 1000 == s * 1000
  {
    var s := diff / 1000;
    var mi := diff / 60_000;
    var h := diff / 3_600_000;
    var d := diff / 86_400_000;
    assert mi == s / 60;
    assert h == mi / 60;
    assert d == h / 24;
    assert d * 24 + h % 24 == h;
    assert h * 60 + mi % 60 == mi;
    assert mi * 60 + s % 60 == s;
  }

  /** The decomposition is the only one with in-range components that
      accounts for `diff` to within a second. */
  lemma DecomposeUnique(diff: nat, r: Remaining)
    requires r.Valid()
    requires r.Millis() <= diff < r.Millis() + 1000
    ensures r == Decompose(diff)
  {
    var secs := r.days * 86400 + r.hours * 3600 + r.minutes * 60 + r.seconds;
    assert diff / 1000 == secs;
    assert diff / 60_000 == secs / 60;
    assert diff / 3_600_000 == secs / 3600;
    assert diff / 86_400_000 == secs / 86400;
  }

  /** `String(n).padStart(2, '0')`: a single decimal digit gets a `0` in
      front, and two or more digits are left as they are. */
  function Pad2(n: nat): (s: string)
    ensures n < 10 ==> s == ['0'] + NatToString(n)
    ensures n >= 10 ==> s == NatToString(n)
  {
    var d := NatToString(n);
    var s := PadStart(d, 2, '0');
    assert n < 10 ==> s == ['0'] + d by {
      if n < 10 {
        assert |s| == 2 && s[1..] == d;
      }
    }
    s
  }

  /** Below 100 the padded form is the tens digit (a `0` pad below ten) and
      the units digit. */
  lemma Pad2Digits(n: nat)
    requires n < 100
    ensures Pad2(n) == [DigitChar(n / 10), DigitChar(n % 10)]
  {
    if n < 10 {
      NatToStringOneDigit(n);
      assert DigitChar(0) == '0';
    } else {
      NatToStringTwoDigits(n);
    }
  }

  /** Below 100 the padded form is two decimal digits denoting `n`. */
  lemma Pad2Value(n: nat)
    requires n < 100
    ensures |Pad2(n)| == 2 && AllDigits(Pad2(n)) && DigitsValue(Pad2(n)) == n
  {
    Pad2Digits(n);
    TwoDigitsValue(n / 10, n % 10);
  }

  /** The `parts` array of the script: `Nd` only when the day count is
      non-zero, then the always-present `HHh`, `MMm` and `SSs`. */
  function Parts(r: Remaining): seq<string>
  {
    (if r.days != 0 then [NatToString(r.days) + "d"] else []) + ClockParts(r)
  }

  function ClockParts(r: Remaining): seq<string>
  {
    [Pad2(r.hours) + "h", Pad2(r.minutes) + "m", Pad2(r.seconds) + "s"]
  }

  /** The rendered countdown, `parts.join(' ')`: the clock alone when the
      day count is zero, and otherwise the decimal day count, `d` and a space
      in front of the clock. */
  function Render(r: Remaining): (s: string)
    ensures r.days == 0 ==> s == Clock(r)
    ensures r.days != 0 ==> s == NatToString(r.days) + "d" + " " + Clock(r)
  {
    if r.days == 0 then
      assert Parts(r) == ClockParts(r);
      Join(Parts(r), " ")
    else
      var dp := NatToString(r.days) + "d";
      assert Parts(r) == [dp] + ClockParts(r);
      JoinFront(dp, ClockParts(r), " ");
      Join(Parts(r), " ")
  }

  /** The text the card shows. The unparsable check comes first, then the
      finished check, and only a strictly future target is rendered. Each
      sentinel is shown exactly in its own case: a rendering is never
      mistaken for either. */
  function CountdownText(target: Option<int>, now: int): (t: string)
    ensures t == Unscheduled <==> target.None?
    ensures t == Finished <==> target.Some? && target.value <= now
    ensures target.Some? && target.value > now ==> t == Render(Decompose(target.value - now))
  {
    match target
    case None => Unscheduled
    case Some(dt) =>
      if dt <= now then Finished
      else
        var r := Decompose(dt - now);
        RenderLength(r);
        Render(r)
  }

  /** The clock part of a rendering: `HHh MMm SSs`. */
  function Clock(r: Remaining): string
  {
    Join(ClockParts(r), " ")
  }

  lemma Join3(a: string, b: string, c: string)
    ensures Join([a, b, c], " ") == a + " " + (b + " " + c)
  {
    assert [a, b, c][1..] == [b, c];
    assert [b, c][1..] == [c];
    assert Join([b, c], " ") == b + " " + c;
  }

  /** Layout of `a + "h " + b + "m " + c + "s"` for two-digit `a`, `b`, `c`. */
  lemma ClockLayout(a: string, b: string, c: string)
    requires |a| == 2 && |b| == 2 && |c| == 2
    requires AllDigits(a) && AllDigits(b) && AllDigits(c)
    ensures var k := Join([a + "h", b + "m", c + "s"], " ");
      && |k| == 11
      && k[0..2] == a && k[4..6] == b && k[8..10] == c
      && k[2..4] == "h " && k[6..8] == "m " && k[10] == 's'
      && 'd' !in k
  {
    Join3(a + "h", b + "m", c + "s");
    var k := Join([a + "h", b + "m", c + "s"], " ");
    assert k == [a[0], a[1], 'h', ' ', b[0], b[1], 'm', ' ', c[0], c[1], 's'];
  }

  /** The clock is eleven characters: two digits and `h`, a space, two digits
      and `m`, a space, two digits and `s`. */
  lemma ClockShape(r: Remaining)
    requires r.Valid()
    ensures |Clock(r)| == 11
    ensures Clock(r)[0..2] == Pad2(r.hours) && Clock(r)[4..6] == Pad2(r.minutes) && Clock(r)[8..10] == Pad2(r.seconds)
    ensures Clock(r)[2..4] == "h " && Clock(r)[6..8] == "m " && Clock(r)[10] == 's'
    ensures 'd' !in Clock(r)
  {
    Pad2Value(r.hours);
    Pad2Value(r.minutes);
    Pad2Value(r.seconds);
    ClockLayout(Pad2(r.hours), Pad2(r.minutes), Pad2(r.seconds));
  }

  lemma DigitsThenUnitSpaceFree(digits: string, unit: string)
    requires AllDigits(digits) && unit in ["d", "h", "m", "s"]
    ensures ' ' !in digits + unit
  {
    assert forall j | 0 <= j < |digits + unit| :: (digits + unit)[j] != ' ';
  }

  lemma ClockPartSpaceFree(n: nat, unit: string)
    requires n < 100 && unit in ["h", "m", "s"]
    ensures ' ' !in Pad2(n) + unit
  {
    Pad2Value(n);
    DigitsThenUnitSpaceFree(Pad2(n), unit);
  }

  /** No part contains the separator. */
  lemma PartsSpaceFree(r: Remaining)
    requires r.Valid()
    ensures forall i | 0 <= i < |Parts(r)| :: ' ' !in Parts(r)[i]
  {
    var cp := ClockParts(r);
    ClockPartSpaceFree(r.hours, "h");
    ClockPartSpaceFree(r.minutes, "m");
    ClockPartSpaceFree(r.seconds, "s");
    ThreeSpaceFree(cp[0], cp[1], cp[2]);
    assert cp == [cp[0], cp[1], cp[2]];
    var dps := if r.days != 0 then [NatToString(r.days) + "d"] else [];
    if r.days != 0 {
      DigitsThenUnitSpaceFree(NatToString(r.days), "d");
    }
    assert forall k | 0 <= k < |dps| :: ' ' !in dps[k];
    ConcatSpaceFree(dps, cp);
  }

  lemma ThreeSpaceFree(a: string, b: string, c: string)
    requires ' ' !in a && ' ' !in b && ' ' !in c
    ensures forall k | 0 <= k < 3 :: ' ' !in [a, b, c][k]
  {
    forall k | 0 <= k < 3
      ensures ' ' !in [a, b, c][k]
    {
      if k == 0 {
        assert [a, b, c][k] == a;
      } else if k == 1 {
        assert [a, b, c][k] == b;
      } else {
        assert [a, b, c][k] == c;
      }
    }
  }

  lemma ConcatSpaceFree(a: seq<string>, b: seq<string>)
    requires forall k | 0 <= k < |a| :: ' ' !in a[k]
    requires forall k | 0 <= k < |b| :: ' ' !in b[k]
    ensures forall i | 0 <= i < |a + b| :: ' ' !in (a + b)[i]
  {
    forall i | 0 <= i < |a + b|
      ensures ' ' !in (a + b)[i]
    {
      if i >= |a| {
        assert (a + b)[i] == b[i - |a|];
      }
    }
  }

  /** Shape of a rendering: the day segment `Nd` (decimal days, no leading
      zero) is present iff the day count is non-zero, and the 3 or 4 parts
      are joined by single spaces. */
  lemma RenderShape(r: Remaining)
    requires r.Valid()
    ensures |Parts(r)| == if r.days == 0 then 3 else 4
    ensures 'd' in Render(r) <==> r.days != 0
    ensures r.days != 0 ==> Render(r)[0] != '0'
    ensures Occurrences(Render(r), ' ') == |Parts(r)| - 1
  {
    ClockShape(r);
    if r.days != 0 {
      var ds := NatToString(r.days);
      assert (ds + "d" + " " + Clock(r))[|ds|] == 'd';
      assert (ds + "d" + " " + Clock(r))[0] == ds[0];
    }
    PartsSpaceFree(r);
    JoinSeparatorCount(Parts(r), ' ');
  }

  /** Reads an eleven-character clock `HHh MMm SSs` back into hours,
      minutes and seconds. */
  function ParseClock(c: string): Option<(nat, nat, nat)>
    requires |c| == 11
  {
    if IsDigit(c[0]) && IsDigit(c[1]) && c[2..4] == "h " && IsDigit(c[4]) && IsDigit(c[5])
       && c[6..8] == "m " && IsDigit(c[8]) && IsDigit(c[9]) && c[10] == 's'
    then Some((DigitsValue(c[0..2]), DigitsValue(c[4..6]), DigitsValue(c[8..10])))
    else None
  }

  /** Reads the day segment in front of the clock: nothing means zero days,
      otherwise decimal digits followed by `d` and a space. */
  function ParseDays(prefix: string): Option<nat>
  {
    if prefix == [] then Some(0)
    else if |prefix| >= 3 && prefix[|prefix| - 2..] == "d " && AllDigits(prefix[..|prefix| - 2])
    then Some(DigitsValue(prefix[..|prefix| - 2]))
    else None
  }

  /** Reads a rendering back into its components; `None` for text of any
      other shape. */
  function Parse(text: string): Option<Remaining>
  {
    if |text| < 11 then None
    else
      match (ParseDays(text[..|text| - 11]), ParseClock(text[|text| - 11..]))
      case (Some(d), Some((h, m, s))) => Some(Remaining(d, h, m, s))
      case _ => None
  }

  lemma ParseClockLayout(a: string, b: string, c: string)
    requires |a| == 2 && |b| == 2 && |c| == 2
    requires AllDigits(a) && AllDigits(b) && AllDigits(c)
    ensures |Join([a + "h", b + "m", c + "s"], " ")| == 11
    ensures ParseClock(Join([a + "h", b + "m", c + "s"], " ")) == Some((DigitsValue(a), DigitsValue(b), DigitsValue(c)))
  {
    ClockLayout(a, b, c);
  }

  lemma ParseClockOf(r: Remaining)
    requires r.Valid()
    ensures |Clock(r)| == 11 && ParseClock(Clock(r)) == Some((r.hours, r.minutes, r.seconds))
  {
    Pad2Value(r.hours);
    Pad2Value(r.minutes);
    Pad2Value(r.seconds);
    ParseClockLayout(Pad2(r.hours), Pad2(r.minutes), Pad2(r.seconds));
  }

  lemma ParseDaysOf(n: nat)
    requires n != 0
    ensures ParseDays(NatToString(n) + "d" + " ") == Some(n)
  {
    var ds := NatToString(n);
    var p := ds + "d" + " ";
    assert p[|p| - 2..] == "d ";
    assert p[..|p| - 2] == ds;
    NatToStringRoundTrip(n);
  }

  lemma ParseSplit(prefix: string, clock: string)
    requires |clock| == 11
    ensures Parse(prefix + clock) == match (ParseDays(prefix), ParseClock(clock))
      case (Some(d), Some((h, m, s))) => Some(Remaining(d, h, m, s))
      case _ => None
  {
    var t := prefix + clock;
    assert t[..|t| - 11] == prefix;
    assert t[|t| - 11..] == clock;
  }

  /** Rendering loses nothing: the components can be read back from the text. */
  lemma ParseRender(r: Remaining)
    requires r.Valid()
    ensures Parse(Render(r)) == Some(r)
  {
    if r.days != 0 {
      DaysReadBack(r);
    } else {
      ClockReadsBack(r);
    }
  }

  /** Without days the text is the clock, which reads back. */
  lemma ClockReadsBack(r: Remaining)
    requires r.Valid() && r.days == 0
    ensures Parse(Render(r)) == Some(r)
  {
    ParseClockOf(r);
    ParseSplit([], Clock(r));
    assert [] + Clock(r) == Clock(r);
  }

  /** With days the text is the day segment, a space and the clock, and
      both read back. */
  lemma DaysReadBack(r: Remaining)
    requires r.Valid() && r.days != 0
    ensures Parse(Render(r)) == Some(r)
  {
    ParseClockOf(r);
    ParseDaysOf(r.days);
    ParseSplit(NatToString(r.days) + "d" + " ", Clock(r));
  }

  /** A rendering has at least the eleven characters of the clock. */
  lemma RenderLength(r: Remaining)
    requires r.Valid()
    ensures |Render(r)| >= 11
  {
    ClockShape(r);
  }

  lemma ClockPartsAre(r: Remaining, hh: string, mm: string, ss: string)
    requires Pad2(r.hours) == hh && Pad2(r.minutes) == mm && Pad2(r.seconds) == ss
    ensures ClockParts(r) == [hh + "h", mm + "m", ss + "s"]
  {
  }

  lemma Pad2Zero()
    ensures Pad2(0) == "00"
  {
    assert DigitChar(0) == '0';
  }

  lemma Pad2One()
    ensures Pad2(1) == "01"
  {
    assert DigitChar(0) == '0' && DigitChar(1) == '1';
  }

  lemma Pad2Thirty()
    ensures Pad2(30) == "30"
  {
    assert DigitChar(3) == '3' && DigitChar(0) == '0';
  }

  /** The clock spelled out character by character from its three pads. */
  lemma ClockOf(r: Remaining, h1: char, h2: char, m1: char, m2: char, s1: char, s2: char)
    requires Pad2(r.hours) == [h1, h2] && Pad2(r.minutes) == [m1, m2] && Pad2(r.seconds) == [s1, s2]
    ensures Clock(r) == [h1, h2, 'h', ' ', m1, m2, 'm', ' ', s1, s2, 's']
  {
    ClockPartsAre(r, [h1, h2], [m1, m2], [s1, s2]);
    ClockChars(h1, h2, m1, m2, s1, s2);
  }

  lemma ClockChars(h1: char, h2: char, m1: char, m2: char, s1: char, s2: char)
    ensures Join([[h1, h2] + "h", [m1, m2] + "m", [s1, s2] + "s"], " ")
      == [h1, h2, 'h', ' ', m1, m2, 'm', ' ', s1, s2, 's']
  {
    var hp, mp, sp := [h1, h2, 'h'], [m1, m2, 'm'], [s1, s2, 's'];
    assert [h1, h2] + "h" == hp && [m1, m2] + "m" == mp && [s1, s2] + "s" == sp;
    Join3(hp, mp, sp);
  }

  lemma RenderZero()
    ensures Render(Remaining(0, 0, 0, 0)) == "00h 00m 00s"
  {
    var r := Remaining(0, 0, 0, 0);
    Pad2Zero();
    ClockOf(r, '0', '0', '0', '0', '0', '0');
  }

  lemma RenderNinety()
    ensures Render(Remaining(0, 0, 1, 30)) == "00h 01m 30s"
  {
    var r := Remaining(0, 0, 1, 30);
    Pad2Zero();
    Pad2One();
    Pad2Thirty();
    ClockOf(r, '0', '0', '0', '1', '3', '0');
  }

  lemma DecomposeSubSecond(diff: nat)
    requires diff < 1000
    ensures Decompose(diff) == Remaining(0, 0, 0, 0)
  {
    assert diff / 1000 == 0 && diff / 60_000 == 0;
    assert diff / 3_600_000 == 0 && diff / 86_400_000 == 0;
  }

  /** Less than a second to go renders as all zeros. */
  lemma UnderOneSecond(now: int, ahead: int)
    requires 0 < ahead < 1000
    ensures CountdownText(Some(now + ahead), now) == "00h 00m 00s"
  {
    DecomposeSubSecond(ahead);
    RenderZero();
  }

  /** A target ninety seconds ahead renders as one minute thirty. */
  lemma NinetySeconds(now: int)
    ensures CountdownText(Some(now + 90_000), now) == "00h 01m 30s"
  {
    DecomposeUnique(90_000, Remaining(0, 0, 1, 30));
    RenderNinety();
  }
}
