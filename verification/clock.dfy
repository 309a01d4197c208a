/**
 The elapsed and total time labels: `formatTime` renders a number of seconds
 as whole minutes, a colon and the whole remaining seconds zero-padded to two
 digits. A NaN input (the duration before the metadata has loaded) renders
 as "0:00".
 */
module Clock {
  import opened Wrappers
  import opened Text

  /** A time as the media element reports it: NaN, or a finite number of seconds. */
  datatype TimeValue = NaN | Finite(seconds: real)

  /** JavaScript's `x % 60` for non-negative `x`: the remainder of truncated division. */
  function Rem60(x: real): (r: real)
    requires x >= 0.0
    ensures 0.0 <= r < 60.0
  {
    x - 60.0 * ((x / 60.0).Floor as real)
  }

  /**
   `Math.floor(x / 60)` and `Math.floor(x % 60)` are the quotient and the
   remainder of the whole number of seconds `Math.floor(x)`.
   */
  lemma FloorSplit(x: real)
    requires x >= 0.0
    ensures (x / 60.0).Floor == x.Floor / 60
    ensures Rem60(x).Floor == x.Floor % 60
  {
    var n := x.Floor;
    var q, r := n / 60, n % 60;
    assert n == 60 * q + r;
    assert (60 * q) as real <= x < (60 * q + 60) as real;
    assert (q as real) <= x / 60.0 < (q + 1) as real;
    assert (x / 60.0).Floor == q;
    assert Rem60(x) == x - 60.0 * (q as real);
    assert (r as real) <= Rem60(x) < (r + 1) as real;
  }

  /** `r` is digits spelling `minutes`, a colon, and two digits spelling `seconds`. */
  predicate IsClockLabel(r: string, minutes: nat, seconds: nat) {
    && |r| >= 4 && r[|r| - 3] == ':'
    && AllDigits(r[..|r| - 3]) && AllDigits(r[|r| - 2..])
    && ParseDigits(r[..|r| - 3]) == minutes && ParseDigits(r[|r| - 2..]) == seconds
  }

  /** The label of a whole number of seconds: minutes without leading zeros, then two digits of seconds. */
  function FormatWhole(s: nat): (r: string)
    ensures IsClockLabel(r, s / 60, s % 60)
    ensures r[0] == '0' ==> |r| == 4
  {
    var minutes := NatToString(s / 60);
    var seconds := Pad2(s % 60);
    ParseNatToString(s / 60);
    var r := minutes + ":" + seconds;
    assert r[..|r| - 3] == minutes && r[|r| - 2..] == seconds;
    r
  }

  /**
   `formatTime`: "0:00" for NaN; otherwise the minutes and seconds computed
   on the fractional value, which agree with those of the floored value.
   */
  function FormatTime(t: TimeValue): (r: string)
    requires t.Finite? ==> t.seconds >= 0.0
    ensures t.NaN? ==> r == "0:00"
    ensures t.Finite? ==> r == FormatWhole(t.seconds.Floor)
  {
    match t
    case NaN => "0:00"
    case Finite(x) =>
      FloorSplit(x);
      NatToString((x / 60.0).Floor) + ":" + Pad2(Rem60(x).Floor)
  }

  /** Reads an `M:SS` label back into seconds; None when the text is not of that shape. */
  function ReadClock(text: string): Option<nat> {
    match IndexOf(text, ":", 0)
    case None => None
    case Some(k) =>
      var minutes := text[..k];
      var seconds := text[k + 1..];
      if 0 < k && AllDigits(minutes) && |seconds| == 2 && AllDigits(seconds) && ParseDigits(seconds) < 60
      then Some(ParseDigits(minutes) * 60 + ParseDigits(seconds))
      else None
  }

  /** A label of digits, a colon and two digits reads as its minutes times sixty plus its seconds. */
  lemma ReadLabel(r: string, s: nat)
    requires IsClockLabel(r, s / 60, s % 60)
    ensures ReadClock(r) == Some(s)
  {
    var k := |r| - 3;
    assert r[k..k + 1] == ":";
    assert OccursAt(r, ":", k);
    forall j | 0 <= j < k
      ensures !OccursAt(r, ":", j)
    {
      assert IsDigit(r[..k][j]);
      assert r[j..j + 1][0] == r[j] == r[..k][j];
    }
    assert IndexOf(r, ":", 0) == Some(k);
    assert r[k + 1..] == r[|r| - 2..];
    assert (s / 60) * 60 + s % 60 == s;
  }

  /** Reading a rendered label gives back the whole number of seconds. */
  lemma ReadFormatWhole(s: nat)
    ensures ReadClock(FormatWhole(s)) == Some(s)
  {
    ReadLabel(FormatWhole(s), s);
  }

  /** Reading the label of a finite time gives back its floored seconds: the label loses only the fraction. */
  lemma ReadFormatTime(x: real)
    requires x >= 0.0
    ensures ReadClock(FormatTime(Finite(x))) == Some(x.Floor)
  {
    ReadFormatWhole(x.Floor);
  }

  /** Two different whole numbers of seconds never render the same label. */
  lemma FormatWholeInjective(s: nat, t: nat)
    requires FormatWhole(s) == FormatWhole(t)
    ensures s == t
  {
    ReadFormatWhole(s);
    ReadFormatWhole(t);
  }

  /** The label at load time and the label a minute and five seconds in. */
  lemma FormatWholeExamples()
    ensures FormatWhole(0) == "0:00"
    ensures FormatWhole(65) == "1:05"
  {
    assert NatToString(0) == "0" && NatToString(1) == "1" && NatToString(5) == "5";
    assert seq(1, _ => '0') == "0";
    assert Pad2(0) == "00" && Pad2(5) == "05";
    assert 65 / 60 == 1 && 65 % 60 == 5;
  }

  /** The labels at load time, at 65 and at 65.7 seconds, and for an unknown (NaN) duration. */
  lemma FormatTimeExamples()
    ensures FormatTime(Finite(0.0)) == "0:00"
    ensures FormatTime(Finite(65.0)) == "1:05"
    ensures FormatTime(Finite(65.7)) == "1:05"
    ensures FormatTime(NaN) == "0:00"
  {
    FormatWholeExamples();
    assert (0.0).Floor == 0 && (65.0).Floor == 65 && (65.7).Floor == 65;
  }
}
