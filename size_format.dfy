/** `get_size(bytes, suffix="B")`: picks the unit prefix for a byte count by
    dividing by 1024 until the value drops below 1024. Sizes are `real`s, on
    which division by 1024 is exact; the `%.2f` rendering is not modelled, so
    the result is the scaled value with its unit prefix and suffix. */
module SizeFormat {
  import opened Wrappers

  const Factor: real := 1024.0
  const Units: seq<string> := ["", "K", "M", "G", "T", "P"]

  /** What `get_size` renders as f"{value:.2f}{unit}{suffix}". */
  datatype Scaled = Scaled(value: real, unit: string, suffix: string)

  /** 1024^k. */
  function Power(k: nat): (p: real)
    ensures p >= 1.0
  {
    if k == 0 then 1.0 else Factor * Power(k - 1)
  }

  lemma {:induction false} PowerMonotone(i: nat, j: nat)
    requires i <= j
    ensures Power(i) <= Power(j)
    decreases j
  {
    if i < j {
      PowerMonotone(i, j - 1);
    }
  }

  /** The first unit index k >= `from` with `b < 1024^(k+1)`, if any below 6. */
  function UnitIndexFrom(b: real, from: nat): (r: Option<nat>)
    requires from <= |Units|
    requires from > 0 ==> b >= Power(from)
    ensures r.None? <==> b >= Power(|Units|)
    ensures r.Some? ==> from <= r.value < |Units| && b < Power(r.value + 1)
                        && (r.value > 0 ==> b >= Power(r.value))
    decreases |Units| - from
  {
    if from == |Units| then None
    else if b < Power(from + 1) then
      PowerMonotone(from + 1, |Units|);
      Some(from)
    else UnitIndexFrom(b, from + 1)
  }

  /** The unit index `get_size` stops at, or None when it falls off the end. */
  function UnitIndex(b: real): Option<nat> {
    UnitIndexFrom(b, 0)
  }

  /** What `get_size(b, suffix)` renders, as a value; None when the code
      returns None (b >= 1024^6). */
  function SizeOf(b: real, suffix: string): (r: Option<Scaled>)
    ensures r.None? <==> b >= Power(|Units|)
    ensures r.Some? ==> r.value.value < Factor && r.value.unit in Units && r.value.suffix == suffix
  {
    match UnitIndex(b)
    case None => None
    case Some(k) =>
      ScaledCompare(b, k);
      Some(Scaled(b / Power(k), Units[k], suffix))
  }

  lemma ScaledCompare(bytes: real, i: nat)
    ensures bytes / Power(i) < Factor <==> bytes < Power(i + 1)
  {
  }

  lemma DivideStep(bytes: real, i: nat)
    ensures bytes / Power(i) / Factor == bytes / Power(i + 1)
  {
  }

  /** `get_size`: the loop over the unit prefixes. */
  method GetSize(bytes: real, suffix: string) returns (r: Option<Scaled>)
    ensures r == SizeOf(bytes, suffix)
  {
    var b := bytes;
    for i := 0 to |Units|
      invariant b == bytes / Power(i)
      invariant i > 0 ==> bytes >= Power(i)
      invariant UnitIndexFrom(bytes, i) == UnitIndex(bytes)
    {
      ScaledCompare(bytes, i);
      if b < Factor {
        assert UnitIndexFrom(bytes, i) == Some(i);
        return Some(Scaled(b, Units[i], suffix));
      }
      assert bytes >= Power(i + 1);
      DivideStep(bytes, i);
      b := b / Factor;
    }
    return None;
  }

  /** The unit chosen is the k with 1024^k <= b < 1024^(k+1) (any b below 1024,
      negative ones included, gets no prefix), and the value is b / 1024^k;
      from 1024^6 on, nothing is returned. */
  lemma SizeOfCharacterized(b: real, suffix: string, k: nat)
    requires k < |Units|
    ensures SizeOf(b, suffix).None? <==> b >= Power(6)
    ensures SizeOf(b, suffix) == Some(Scaled(b / Power(k), Units[k], suffix))
            <==> b < Power(k + 1) && (k == 0 || b >= Power(k))
  {
    var r := UnitIndex(b);
    if r.Some? && b < Power(k + 1) && (k == 0 || b >= Power(k)) {
      if r.value < k {
        PowerMonotone(r.value + 1, k);
      } else if r.value > k {
        PowerMonotone(k + 1, r.value);
      }
    }
  }

  /** Sample values: 0 -> "0.00B", 1024 -> "1.00K", 1536 -> "1.50K". */
  lemma SizeOfExamples()
    ensures SizeOf(0.0, "B") == Some(Scaled(0.0, "", "B"))
    ensures SizeOf(1024.0, "B") == Some(Scaled(1.0, "K", "B"))
    ensures SizeOf(1536.0, "B") == Some(Scaled(1.5, "K", "B"))
  {
    assert SizeOf(0.0, "B") == Some(Scaled(0.0, "", "B")) by {
      SizeOfCharacterized(0.0, "B", 0);
    }
    assert SizeOf(1024.0, "B") == Some(Scaled(1.0, "K", "B")) by {
      SizeOfCharacterized(1024.0, "B", 1);
    }
    SizeOfCharacterized(1536.0, "B", 1);
  }

  /** At the top of the range: 1024^4 -> "1.00T", and 1024^6 -> None. */
  lemma SizeOfLargeExamples()
    ensures SizeOf(Power(4), "B") == Some(Scaled(1.0, "T", "B"))
    ensures SizeOf(Power(6), "B") == None
  {
    SizeOfCharacterized(Power(4), "B", 4);
  }
}
