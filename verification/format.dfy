/** The two pure renderers used by the progress messages: the byte-size
    formatter and the fixed-width star bar. */
module Format {
  import opened Common

  /** Binary-prefixed units, each 1024 times the previous one. */
  datatype Unit = B | KB | MB | GB | TB

  /** Position of a unit in the ladder B, KB, MB, GB, TB. */
  function Rank(u: Unit): nat
  {
    match u
    case B => 0
    case KB => 1
    case MB => 2
    case GB => 3
    case TB => 4
  }

  function UnitAt(k: nat): (u: Unit)
    requires k <= 4
    ensures Rank(u) == k
  {
    [B, KB, MB, GB, TB][k]
  }

  function Pow1024(k: nat): (r: nat)
    ensures r >= 1
  {
    if k == 0 then 1 else 1024 * Pow1024(k - 1)
  }

  /** `v * p < 1024 * p` follows from `v < 1024` when `p` is positive. */
  lemma ScaleCompare(v: real, p: nat)
    requires p >= 1
    ensures v < 1024.0 ==> v * p as real < 1024.0 * p as real
    ensures v >= 1024.0 ==> v * p as real >= 1024.0 * p as real
  {
  }

  /** The unit selection of `format_size`: the loop divides by 1024 until the
      value drops below 1024 or the ladder reaches TB. The returned value is
      the number printed (before two-decimal rounding) and `unit` its suffix:
      the smallest unit whose next threshold exceeds the size, TB for
      everything from 1024^4 up. */
  method FormatSize(size: int) returns (value: real, unit: Unit)
    ensures unit == TB <==> size >= Pow1024(4)
    ensures unit != TB ==> size < Pow1024(Rank(unit) + 1)
    ensures Rank(unit) > 0 ==> size >= Pow1024(Rank(unit))
    ensures value * Pow1024(Rank(unit)) as real == size as real
  {
    value := size as real;
    var k: nat := 0;
    while k < 4
      invariant k <= 4
      invariant value * Pow1024(k) as real == size as real
      invariant k > 0 ==> size >= Pow1024(k)
    {
      ScaleCompare(value, Pow1024(k));
      if value < 1024.0 {
        unit := UnitAt(k);
        return;
      }
      value := value / 1024.0;
      k := k + 1;
    }
    unit := TB;
  }

  /** Glyphs of the bar: a filled star and an empty star, one character
      each. The source file holds them as mis-decoded UTF-8, three code
      points per star; they are read here as the characters intended. */
  const FilledStar: char := '\U{2605}'
  const EmptyStar: char := '\U{2606}'

  /** Python's `int(x)` on a float: truncation toward zero. */
  function Trunc(x: real): int
  {
    if x >= 0.0 then x.Floor else -((-x).Floor)
  }

  /** Number of filled stars: the truncated fraction of the length; string
      repetition by a negative count draws none. */
  function FilledCount(percent: real, length: int): nat
  {
    Max(0, Trunc(percent / 100.0 * length as real))
  }

  /** `generate_progress_bar`: brackets around the filled stars followed by
      enough empty stars to reach `length` cells. Every inner cell is a star,
      the filled ones come first, and a percentage in [0, 100] gives exactly
      `length` cells of which `floor(percent / 100 * length)` are filled. */
  function ProgressBar(percent: real, length: int): (r: string)
    ensures |r| == 2 + Max(FilledCount(percent, length), length)
    ensures r[0] == '[' && r[|r| - 1] == ']'
    ensures forall i :: 1 <= i < |r| - 1 ==>
      (r[i] == FilledStar <==> i <= FilledCount(percent, length)) &&
      (r[i] == EmptyStar <==> i > FilledCount(percent, length))
    ensures 0.0 <= percent <= 100.0 && length >= 0 ==>
      |r| == length + 2 &&
      FilledCount(percent, length) == (percent / 100.0 * length as real).Floor <= length
  {
    var filled := Repeat(FilledStar, Trunc(percent / 100.0 * length as real));
    var empty := Repeat(EmptyStar, length - |filled|);
    FractionBelow(percent / 100.0, length);
    "[" + filled + empty + "]"
  }

  /** A fraction in [0, 1] of a non-negative length stays within it. */
  lemma FractionBelow(f: real, n: int)
    ensures 0.0 <= f <= 1.0 && n >= 0 ==> 0.0 <= f * n as real <= n as real
    ensures 0.0 <= f <= 1.0 && n >= 0 ==> (f * n as real).Floor <= n
  {
    if 0.0 <= f <= 1.0 && n >= 0 {
      assert f * n as real <= 1.0 * n as real;
    }
  }
}
