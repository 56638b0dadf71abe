/**
 * Serial I2S data as both receivers see it: the word-select level and the
 * data bit at each rising edge of the bit clock, and the value of bits
 * shifted in most significant first.
 */
module I2sSerial {
  import opened Common

  /** One rising edge of the bit clock: the word-select level and the data bit. */
  datatype BclkEdge = BclkEdge(lrclk: bool, data: bool)

  function Bit(b: bool): nat {
    if b then 1 else 0
  }

  /** The edges of one word: the word-select level stays at `lr`. */
  function Word(lr: bool, bits: seq<bool>): (es: seq<BclkEdge>)
    ensures |es| == |bits|
  {
    seq(|bits|, k requires 0 <= k < |bits| => BclkEdge(lr, bits[k]))
  }

  /** The value of bits sent most significant first. */
  function BitsValue(bits: seq<bool>): nat {
    if |bits| == 0 then 0 else 2 * BitsValue(bits[..|bits| - 1]) + Bit(bits[|bits| - 1])
  }

  lemma MulAtLeast(a: int, m: int)
    requires a >= 1 && m > 0
    ensures a * m >= m
  {
  }

  /** The remainder is the only `r` in 0..m-1 with `x == q * m + r`. */
  lemma ModUnique(x: int, m: int, q: int, r: int)
    requires m > 0 && 0 <= r < m && x == q * m + r
    ensures x % m == r
  {
    var q0 := x / m;
    var r0 := x % m;
    assert x == q0 * m + r0;
    assert (q - q0) * m == r0 - r;
    if q > q0 {
      MulAtLeast(q - q0, m);
    } else if q < q0 {
      MulAtLeast(q0 - q, m);
    }
  }

  /** Truncating before or after a shift gives the same register. */
  lemma ShiftMod(x: nat, b: nat, m: nat)
    requires m > 0 && b <= 1
    ensures (2 * (x % m) + b) % m == (2 * x + b) % m
  {
    var q := x / m;
    var r := x % m;
    var y := 2 * r + b;
    var q1 := y / m;
    var r1 := y % m;
    assert y == q1 * m + r1;
    assert 2 * x + b == (2 * q + q1) * m + r1 by {
      assert x == q * m + r;
      assert 2 * x + b == 2 * (q * m) + y;
      assert 2 * (q * m) == (2 * q) * m;
      assert (2 * q) * m + q1 * m == (2 * q + q1) * m;
    }
    ModUnique(2 * x + b, m, 2 * q + q1, r1);
  }

  /**
   * A register holding the bits after the first of `init`, truncated to
   * `m`, holds those of `init + [b]` once `b` is shifted in.
   */
  lemma ShiftInValue(init: seq<bool>, b: bool, m: nat, reg: nat)
    requires m > 0 && |init| > 0 && reg == BitsValue(init[1..]) % m
    ensures (2 * reg + Bit(b)) % m == BitsValue((init + [b])[1..]) % m
  {
    var v := BitsValue(init[1..]);
    var tail := (init + [b])[1..];
    assert tail == init[1..] + [b];
    assert tail[..|tail| - 1] == init[1..];
    ShiftMod(v, Bit(b), m);
  }

  lemma WordSnoc(lr: bool, bits: seq<bool>)
    requires |bits| > 0
    ensures Word(lr, bits)[..|bits| - 1] == Word(lr, bits[..|bits| - 1])
    ensures Word(lr, bits)[|bits| - 1] == BclkEdge(lr, bits[|bits| - 1])
  {
  }
}
