/**
 * Byte-level vocabulary shared by the message and packet layers: the `u8`
 * type, the frame constants, and the additive byte sum that the checksum
 * is built from.
 */
module Wire {

  /** A Rust `u8`. */
  type Byte = b: int | 0 <= b < 256

  /** The frame marker, also the bound the parameter capacity is derived from. */
  const SYNC_BYTE: Byte := 0xAA

  /** `a.wrapping_add(b)` on `u8`. */
  function WrappingAdd(a: Byte, b: Byte): Byte {
    (a + b) % 256
  }

  /** `a.wrapping_sub(b)` on `u8` (Dafny's `%` is Euclidean, so the result is in 0..255). */
  function WrappingSub(a: Byte, b: Byte): Byte {
    (a - b) % 256
  }

  /** The mathematical sum of a byte sequence, with no wrap-around. */
  function Sum(s: seq<Byte>): nat {
    if |s| == 0 then 0 else s[0] + Sum(s[1..])
  }

  /**
   * A left-to-right `wrapping_add` fold starting from `acc`: the loop the
   * checksum runs over the parameter bytes. Its result is the true sum
   * reduced modulo 256.
   */
  function WrappingSumFrom(acc: Byte, s: seq<Byte>): (r: Byte)
    ensures r == (acc + Sum(s)) % 256
    decreases |s|
  {
    if |s| == 0 then acc
    else
      ModAddLeft(acc + s[0], Sum(s[1..]));
      WrappingSumFrom(WrappingAdd(acc, s[0]), s[1..])
  }

  /** `n` zero bytes: the initial contents of a `[0u8; n]` array. */
  function Zeros(n: nat): (z: seq<Byte>)
    ensures |z| == n
    ensures forall i :: 0 <= i < n ==> z[i] == 0
  {
    seq(n, _ => 0)
  }

  /** Replacing one byte changes the sum by exactly the difference of the two bytes. */
  lemma {:induction false} SumUpdate(s: seq<Byte>, k: nat, v: Byte)
    requires k < |s|
    ensures Sum(s[k := v]) == Sum(s) - s[k] + v
  {
    if k == 0 {
      assert s[k := v][1..] == s[1..];
    } else {
      assert s[k := v][1..] == s[1..][k - 1 := v];
      SumUpdate(s[1..], k - 1, v);
    }
  }

  /** Reducing a partial sum modulo 256 does not change the final residue. */
  lemma ModAddLeft(a: int, b: int)
    ensures (a % 256 + b) % 256 == (a + b) % 256
  {
    var q := a / 256;
    assert a == 256 * q + a % 256;
    ModShift(q, a % 256 + b);
  }

  lemma ModShift(q: int, x: int)
    ensures (256 * q + x) % 256 == x % 256
  {
  }

  /**
   * The byte that brings a sum to 0 modulo 256 is unique, and it is
   * `0u8.wrapping_sub(sum as u8)`.
   */
  lemma Balance(t: int, c: Byte)
    ensures (t + c) % 256 == 0 <==> c == WrappingSub(0, t % 256)
  {
    var r := t % 256;
    var q := t / 256;
    assert t == 256 * q + r;
    ModShift(q, r + c);
    assert (t + c) % 256 == (r + c) % 256;
  }
}
