/** What several models share. */
module Common {

  datatype Option<T> = None | Some(value: T)

  type Byte = b: nat | b < 256

  /** 64-bit numbers wrap at this value. */
  const U64: nat := 0x1_0000_0000_0000_0000

  // The kernel's error codes.
  const ENOENT: int := -2
  const EAGAIN: int := -11
  const ENOMEM: int := -12
  const EFAULT: int := -14
  const EBUSY: int := -16
  const EEXIST: int := -17
  const ENODEV: int := -19
  const EINVAL: int := -22
  const ETIMEDOUT: int := -110

  function Pow(m: nat, n: nat): (p: nat)
    ensures m > 0 ==> p > 0
  {
    if n == 0 then 1 else m * Pow(m, n - 1)
  }

  lemma SmallMultiple(d: int, p: nat)
    requires 0 - p < d * p < p
    ensures d == 0
  {
    assert d >= 1 ==> d * p >= p;
    assert d <= -1 ==> d * p <= 0 - p;
  }

  /** Division is the only way to split a number. */
  lemma ModUnique(x: nat, p: nat, q: nat, r: nat)
    requires x == q * p + r && r < p
    ensures x % p == r && x / p == q
  {
    var (a, b) := (x / p, x % p);
    assert x == a * p + b;
    assert (a - q) * p == a * p - q * p;
    SmallMultiple(a - q, p);
  }

  lemma HalfOfMod(t: nat, p: nat)
    requires p > 0
    ensures t % (2 * p) % 2 == t % 2 && t % (2 * p) / 2 == t / 2 % p
  {
    var (q, r) := (t / (2 * p), t % (2 * p));
    var x := q * p;
    assert t == q * (2 * p) + r;
    assert q * (2 * p) == 2 * x;
    assert t / 2 == x + r / 2 && t % 2 == r % 2;
    ModUnique(t / 2, p, q, r / 2);
  }
}
