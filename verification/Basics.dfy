/** Small shared vocabulary: bytes, optional values, buffers and machine arithmetic. */
module Basics {
  type Bytes = seq<bv8>

  datatype Option<+T> = None | Some(value: T)

  const UINT32_MAX: nat := 0xFFFF_FFFF

  /** Sums of 32-bit numbers wrap. */
  function Add32(a: nat, b: nat): nat {
    (a + b) % (UINT32_MAX + 1)
  }

  function Zeros(n: nat): Bytes {
    seq(n, _ => 0)
  }

  /** The buffer with `bytes` copied in at `at`. */
  function Overlay(buffer: Bytes, at: nat, bytes: Bytes): Bytes
    requires at + |bytes| <= |buffer|
  {
    buffer[..at] + bytes + buffer[at + |bytes|..]
  }

  lemma {:induction false} MulGap(q: nat, d: nat, p: nat)
    requires q < d
    ensures d * p >= q * p + p
    decreases d
  {
    assert d * p == (d - 1) * p + p;
    if q < d - 1 {
      MulGap(q, d - 1, p);
    }
  }

  lemma ModUnique(n: nat, q: nat, r: nat, p: nat)
    requires p > 0 && n == q * p + r && r < p
    ensures n % p == r
  {
    var d := n / p;
    if d > q {
      MulGap(q, d, p);
    } else if d < q {
      MulGap(d, q, p);
    }
  }
}
