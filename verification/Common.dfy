/** Values every part of the model uses. */
module Common {
  datatype Option<+T> = None | Some(value: T)

  function Max(a: int, b: int): int { if a >= b then a else b }

  /** `m.get(k)`. */
  function Lookup<K, V>(m: map<K, V>, k: K): Option<V> {
    if k in m then Some(m[k]) else None
  }

  /** One element of a Python `bytes`. */
  type byte = x: int | 0 <= x < 256

  function Zeros(n: nat): (z: seq<byte>)
    ensures |z| == n && forall i :: 0 <= i < n ==> z[i] == 0
  {
    seq(n, _ => 0)
  }

  /** `int.from_bytes(..., "big")`. */
  function FromBytes(b: seq<byte>): nat {
    if b == [] then 0 else FromBytes(b[..|b| - 1]) * 256 + b[|b| - 1]
  }

  function Pow256(n: nat): nat {
    if n == 0 then 1 else 256 * Pow256(n - 1)
  }

  /** v in exactly n bytes. */
  function FixedBytes(v: nat, n: nat): (b: seq<byte>)
    ensures |b| == n
  {
    if n == 0 then [] else FixedBytes(v / 256, n - 1) + [v % 256]
  }

  lemma {:induction false} FixedReadsBack(v: nat, n: nat)
    requires v < Pow256(n)
    ensures FromBytes(FixedBytes(v, n)) == v
  {
    if n > 0 {
      FixedReadsBack(v / 256, n - 1);
      assert FixedBytes(v, n)[..n - 1] == FixedBytes(v / 256, n - 1);
    }
  }
}
