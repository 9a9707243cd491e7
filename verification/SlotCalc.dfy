/** The frequency slot calculator: the djb2 hash of a channel name, its slot, and the slot's channel.  Frequencies
    are exact reals, in MHz; bandwidths are in kHz. */
module SlotCalc {
  import opened Wrappers

  const WORD: int := 0x1_0000_0000

  /** The loop of `djb2_hash`, on unbounded integers. */
  function Unbounded(s: string): nat {
    if s == "" then 5381 else Unbounded(s[..|s| - 1]) * 33 + s[|s| - 1] as int
  }

  /** The 32-bit hash of the firmware: the word wraps at every step. */
  function Wrapping(s: string): nat {
    if s == "" then 5381 else (Wrapping(s[..|s| - 1]) * 33 + s[|s| - 1] as int) % WORD
  }

  function Pow33(n: nat): nat { if n == 0 then 1 else 33 * Pow33(n - 1) }

  /** The characters weighted by powers of 33, the last one by 1. */
  function Weighted(s: string): nat {
    if s == "" then 0 else s[0] as int * Pow33(|s| - 1) + Weighted(s[1..])
  }

  lemma {:induction false} WeightedSnoc(s: string, c: char)
    ensures Weighted(s + [c]) == Weighted(s) * 33 + c as int
  {
    if s == "" {
      assert s + [c] == [c] && [c][1..] == "";
    } else {
      assert (s + [c])[1..] == s[1..] + [c];
      WeightedSnoc(s[1..], c);
      var k := Pow33(|s| - 1);
      assert Pow33(|s|) == 33 * k;
      assert s[0] as int * (33 * k) == s[0] as int * k * 33;
    }
  }

  /** The hash in closed form: a polynomial in 33. */
  lemma {:induction false} HashIs(s: string)
    ensures Unbounded(s) == 5381 * Pow33(|s|) + Weighted(s)
    ensures Wrapping(s) == (5381 * Pow33(|s|) + Weighted(s)) % 0x1_0000_0000
    decreases |s|
  {
    MaskOnce(s);
    if s != "" {
      var front, c := s[..|s| - 1], s[|s| - 1];
      assert s == front + [c];
      HashIs(front);
      WeightedSnoc(front, c);
    }
  }

  /** Masking once at the end is masking at every step. */
  lemma {:induction false} MaskOnce(s: string)
    ensures Unbounded(s) % WORD == Wrapping(s)
    decreases |s|
  {
    if s != "" {
      var front, c := s[..|s| - 1], s[|s| - 1] as int;
      MaskOnce(front);
      var u := Unbounded(front);
      assert u * 33 + c == u / WORD * 33 * WORD + (u % WORD * 33 + c);
      ModShift(u / WORD * 33, u % WORD * 33 + c);
    }
  }

  lemma ModShift(k: int, x: int)
    ensures (k * WORD + x) % WORD == x % WORD
  {
    var q := (k * WORD + x) / WORD;
    assert k * WORD + x - q * WORD == x + (k - q) * WORD;
  }

  /** `djb2_hash`: the shift-and-add loop, masked at the end, is the wrapping hash. */
  method Djb2(s: string) returns (h: nat)
    ensures h == Wrapping(s)
  {
    h := 5381;
    for i := 0 to |s|
      invariant h == Unbounded(s[..i])
    {
      assert s[..i + 1][..i] == s[..i];
      h := (h * 32 + h) + s[i] as int;
    }
    assert s[..|s|] == s;
    MaskOnce(s);
    h := h % WORD;
  }

  datatype Region = Region(start: real, end: real)

  datatype Slot = Slot(slot: nat, channels: nat, frequency: real)

  /** Lower and upper edge of the channel in a slot. */
  function LowEdge(r: Region, bandwidth: real, slot: nat): real { r.start + slot as real * bandwidth / 1000.0 }

  function HighEdge(r: Region, bandwidth: real, slot: nat): real { LowEdge(r, bandwidth, slot) + bandwidth / 1000.0 }

  lemma FloorTimes(x: real, bandwidth: real, n: int)
    requires bandwidth > 0.0 && n as real <= x / bandwidth
    ensures n as real * bandwidth <= x
  {
    assert x == x / bandwidth * bandwidth;
  }

  lemma FitsIff(x: real, bandwidth: real)
    requires bandwidth > 0.0 && x >= 0.0
    ensures (x / bandwidth).Floor >= 1 <==> x >= bandwidth
    ensures x / bandwidth >= 0.0
  {
    assert x == x / bandwidth * bandwidth;
    assert x / bandwidth >= 1.0 ==> x / bandwidth * bandwidth >= 1.0 * bandwidth;
    assert x >= bandwidth ==> x / bandwidth >= 1.0;
  }

  /** Different slots never overlap. */
  lemma SlotsDisjoint(r: Region, bandwidth: real, i: nat, j: nat)
    requires bandwidth > 0.0 && i < j
    ensures HighEdge(r, bandwidth, i) <= LowEdge(r, bandwidth, j)
  {
    assert (j - i - 1) as real * bandwidth >= 0.0;
    assert j as real * bandwidth == i as real * bandwidth + bandwidth + (j - i - 1) as real * bandwidth;
  }

  /** The calculation of `frequency_calculator`; `None` is its division by zero.  It has a slot exactly when the
      region is at least one bandwidth wide; then the slot is the hash modulo the number of channels, its channel
      is centred on the frequency, lies inside the region, and one more channel than there are would not fit. */
  method Calculate(channel: string, r: Region, bandwidth: real) returns (result: Option<Slot>)
    requires r.start <= r.end && bandwidth > 0.0
    ensures result.Some? <==> (r.end - r.start) * 1000.0 >= bandwidth
    ensures result.Some? ==>
              var s := result.value;
              && s.slot < s.channels && s.slot == Wrapping(channel) % s.channels
              && s.channels as real * bandwidth <= (r.end - r.start) * 1000.0 < (s.channels + 1) as real * bandwidth
              && LowEdge(r, bandwidth, s.slot) == s.frequency - bandwidth / 2000.0
              && HighEdge(r, bandwidth, s.slot) == s.frequency + bandwidth / 2000.0
              && r.start <= LowEdge(r, bandwidth, s.slot) && HighEdge(r, bandwidth, s.slot) <= r.end
  {
    var range := (r.end - r.start) * 1000.0;
    FitsIff(range, bandwidth);
    var channels := (range / bandwidth).Floor;
    var hash := Djb2(channel);
    if channels == 0 {
      return None;
    }
    var slot := hash % channels;
    var frequency := r.start + bandwidth / 2000.0 + slot as real * bandwidth / 1000.0;
    FloorTimes(range, bandwidth, channels);
    NextDoesNotFit(range, bandwidth, channels);
    SlotInside(r, bandwidth, slot, channels);
    return Some(Slot(slot, channels, frequency));
  }

  lemma NextDoesNotFit(x: real, bandwidth: real, n: int)
    requires bandwidth > 0.0 && n == (x / bandwidth).Floor
    ensures x < (n + 1) as real * bandwidth
  {
    assert x == x / bandwidth * bandwidth;
    assert x / bandwidth < (n + 1) as real;
  }

  lemma SlotInside(r: Region, bandwidth: real, slot: nat, channels: nat)
    requires bandwidth > 0.0 && slot < channels && channels as real * bandwidth <= (r.end - r.start) * 1000.0
    ensures r.start <= LowEdge(r, bandwidth, slot) && HighEdge(r, bandwidth, slot) <= r.end
  {
    assert slot as real * bandwidth >= 0.0;
    assert (channels - slot - 1) as real * bandwidth >= 0.0;
    assert channels as real * bandwidth
        == slot as real * bandwidth + bandwidth + (channels - slot - 1) as real * bandwidth;
  }
}
