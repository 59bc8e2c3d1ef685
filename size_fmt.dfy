/** The `Size` display helper: a byte count shown in B, KB or MB with
    integer division at 1024-byte steps. */
module SizeFmt {
  import opened Wrappers
  import opened Strings

  const KiB: nat := 1024
  const MiB: nat := 1024 * 1024

  datatype ByteUnit = B | KB | MB

  /** The number shown and its unit. */
  datatype Scaled = Scaled(shown: nat, unit: ByteUnit)

  function UnitFactor(u: ByteUnit): nat {
    match u
    case B => 1
    case KB => KiB
    case MB => MiB
  }

  function UnitName(u: ByteUnit): string {
    match u
    case B => "B"
    case KB => "KB"
    case MB => "MB"
  }

  /** Unit selection of `Size::fmt`. The unit is decided by the thresholds
      1024 and 1024 * 1024, and the number shown is the byte count divided
      by the unit's factor, rounded down. */
  function ScaleSize(n: nat): (r: Scaled)
    ensures r.unit == B <==> n < KiB
    ensures r.unit == KB <==> KiB <= n < MiB
    ensures r.unit == MB <==> MiB <= n
    ensures r.shown * UnitFactor(r.unit) <= n < (r.shown + 1) * UnitFactor(r.unit)
    ensures r.unit != MB ==> r.shown < KiB
  {
    if n < KiB then Scaled(n, B)
    else if n < MiB then Scaled(n / KiB, KB)
    else Scaled(n / KiB / KiB, MB)
  }

  /** The text `Size::fmt` writes: the number, a space, the unit. */
  function ShowSize(n: nat): (s: string)
    ensures ParseSize(s) == Some(ScaleSize(n))
    // the figure is written without a leading zero
    ensures |s| > 1 && IsDigit(s[0]) && (s[0] == '0' ==> s[1] == ' ')
  {
    var r := ScaleSize(n);
    var digits := NatToString(r.shown);
    NatToStringRoundTrip(r.shown);
    assert ' ' !in digits by {
      assert forall k :: 0 <= k < |digits| ==> IsDigit(digits[k]);
    }
    SplitFirstOf(digits, ' ', UnitName(r.unit));
    digits + " " + UnitName(r.unit)
  }

  /** Reads back a size text: a number, one space, a unit name. */
  function ParseSize(s: string): Option<Scaled> {
    match SplitFirst(s, ' ')
    case None => None
    case Some(p) =>
      match ParseNat(p.0)
      case None => None
      case Some(v) =>
        if p.1 == "B" then Some(Scaled(v, B))
        else if p.1 == "KB" then Some(Scaled(v, KB))
        else if p.1 == "MB" then Some(Scaled(v, MB))
        else None
  }

  /** The worked examples of the display: 1023 bytes stay in bytes, 1024
      bytes become 1 KB, 1024 * 1024 - 1 bytes are still 1023 KB, and
      1024 * 1024 bytes become 1 MB. */
  lemma SizeThresholds()
    ensures ScaleSize(1023) == Scaled(1023, B)
    ensures ScaleSize(1024) == Scaled(1, KB)
    ensures ScaleSize(1024 * 1024 - 1) == Scaled(1023, KB)
    ensures ScaleSize(1024 * 1024) == Scaled(1, MB)
    ensures ScaleSize(5 * 1024 * 1024 + 7) == Scaled(5, MB)
  {
  }
}
