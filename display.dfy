/**
 * What the table and the context menu show for a status: the uptime column
 * and which of the start, stop and remote-SSH entries are enabled.
 */
module Display {
  import opened Wrappers
  import opened Decimal
  import opened Instances

  /** `f"{m:02}"` for a minute count below 60: always two digits. */
  function TwoDigits(m: nat): (s: string)
    requires m < 60
    ensures |s| == 2 && AllDigits(s) && DecimalValue(s) == m
  {
    NatRoundTrip(m);
    if m < 10 then "0" + NatToDecimal(m) else NatToDecimal(m)
  }

  /**
   * The uptime column: empty when there is no uptime, otherwise whole hours,
   * a colon and the remaining whole minutes in two digits.
   */
  function FormatElapsed(t: Option<int>): (s: string)
    ensures t.None? <==> s == ""
    ensures t.Some? ==> 4 <= |s| && s[|s| - 3] == ':' && AllDigits(s[|s| - 2..])
    ensures t.Some? ==> CanonicalInt(s[..|s| - 3])
  {
    match t
    case None => ""
    case Some(secs) =>
      var hours := IntToDecimal(secs / 3600);
      var minutes := TwoDigits(secs % 3600 / 60);
      assert (hours + ":" + minutes)[..|hours|] == hours;
      hours + ":" + minutes
  }

  /** Reading an uptime text back into hours and minutes. */
  function ParseElapsed(s: string): (r: Option<(int, nat)>)
  {
    if 4 <= |s| && s[|s| - 3] == ':' && AllDigits(s[|s| - 2..]) then
      match ParseInt(s[..|s| - 3])
      case Some(h) => Some((h, DecimalValue(s[|s| - 2..])))
      case None => None
    else None
  }

  /**
   * The uptime text of `t` seconds reads back as hours `h` and minutes `m`
   * with `m` below 60 and `t` within the minute that starts `h` hours and
   * `m` minutes in: the seconds are dropped, nothing else is lost.
   */
  lemma FormatElapsedMeaning(t: int)
    ensures ParseElapsed(FormatElapsed(Some(t))).Some?
    ensures var (h, m) := ParseElapsed(FormatElapsed(Some(t))).value;
            && m < 60
            && h * 3600 + m * 60 <= t < h * 3600 + m * 60 + 60
  {
    var hs := IntToDecimal(t / 3600);
    var ms := TwoDigits(t % 3600 / 60);
    var s := hs + ":" + ms;
    assert s[..|s| - 3] == hs;
    assert s[|s| - 2..] == ms;
    IntRoundTrip(t / 3600);
  }

  /** The value of a digit pair. */
  lemma TwoDigitsValue(a: string)
    requires |a| == 2 && AllDigits(a)
    ensures DecimalValue(a) == DigitValue(a[0]) * 10 + DigitValue(a[1])
  {
    var first := a[..1];
    assert first[..0] == [];
    assert DecimalValue(first) == DigitValue(a[0]);
  }

  /** Two digit pairs that denote the same number are the same text. */
  lemma TwoDigitsUnique(a: string, b: string)
    requires |a| == 2 && |b| == 2 && AllDigits(a) && AllDigits(b)
    requires DecimalValue(a) == DecimalValue(b)
    ensures a == b
  {
    TwoDigitsValue(a);
    TwoDigitsValue(b);
  }

  /**
   * The uptime text is the only one of its shape (canonical hours, a colon,
   * two minute digits) that reads back as its hours and minutes.
   */
  lemma FormatElapsedUnique(t: int, s: string)
    requires 4 <= |s| && s[|s| - 3] == ':' && AllDigits(s[|s| - 2..]) && CanonicalInt(s[..|s| - 3])
    requires ParseElapsed(s) == ParseElapsed(FormatElapsed(Some(t)))
    ensures s == FormatElapsed(Some(t))
  {
    var f := FormatElapsed(Some(t));
    FormatElapsedMeaning(t);
    IntCanonical(s[..|s| - 3]);
    IntCanonical(f[..|f| - 3]);
    TwoDigitsUnique(s[|s| - 2..], f[|f| - 2..]);
    assert s == s[..|s| - 3] + ":" + s[|s| - 2..];
    assert f == f[..|f| - 3] + ":" + f[|f| - 2..];
  }

  /** The entries of the instance context menu. */
  datatype MenuEntry = Start | Stop | RemoteSsh

  /** The entries the context menu enables for an instance. */
  function EnabledEntries(s: InstanceStatus): (r: set<MenuEntry>)
    ensures Start in r <==> s.state != Running
    ensures Stop in r <==> s.state == Running
    ensures RemoteSsh in r <==> s.state == Running && Truthy(s.publicIp)
  {
    if s.state == Running then
      {Stop} + (if Truthy(s.publicIp) then {RemoteSsh} else {})
    else
      {Start}
  }

  /**
   * For a status derived from a query row: exactly one of start and stop is
   * offered, start exactly when no uptime is shown, and remote SSH exactly
   * when the instance runs and reported a non-empty address.
   */
  lemma MenuForDerivedStatus(config: InstanceConfig, row: Row, now: int)
    ensures var r := EnabledEntries(DeriveStatus(config, row, now));
            && (Start in r <==> Stop !in r)
            && (Start in r <==> DeriveStatus(config, row, now).elapsed.None?)
            && (RemoteSsh in r <==> row.state == Running && Truthy(row.publicIp))
  {
  }
}
