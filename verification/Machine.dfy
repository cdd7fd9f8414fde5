/** Machine integers and the small option type shared by the whole project. */
module Machine {

  datatype Option<+T> = None | Some(value: T)

  type byte = x: int | 0 <= x < 0x100

  /** A 64-bit unsigned machine word. */
  type Word = x: int | 0 <= x < 0x1_0000_0000_0000_0000

  lemma Assoc<T>(a: seq<T>, b: seq<T>, c: seq<T>)
    ensures a + b + c == a + (b + c)
  {}

  lemma MulGrows(a: int, b: int, m: nat)
    requires a <= b
    ensures a * m <= b * m
  {}

  /** A quotient and a remainder determine the number. */
  lemma DivModOf(q: nat, r: nat, m: nat)
    requires r < m
    ensures (q * m + r) / m == q && (q * m + r) % m == r
  {
    var x := q * m + r;
    var a, b := x / m, x % m;
    assert x == a * m + b;
    assert (q - a) * m == b - r;
    if q - a >= 1 {
      MulGrows(1, q - a, m);
    } else if q - a <= -1 {
      MulGrows(q - a, -1, m);
    }
  }

  // ---------- digits ----------

  function Pow128(n: nat): (r: nat)
    ensures r > 0
  {
    if n == 0 then 1 else 128 * Pow128(n - 1)
  }

  function Pow256(n: nat): (r: nat)
    ensures r > 0
  {
    if n == 0 then 1 else 0x100 * Pow256(n - 1)
  }

  /** Bytes as base-256 digits, least significant first. */
  function LittleEndian(b: seq<byte>): nat {
    if b == [] then 0 else b[0] + 0x100 * LittleEndian(b[1..])
  }

  /** The low n bytes of x, least significant first. */
  function LowBytes(x: nat, n: nat): (b: seq<byte>)
    ensures |b| == n
  {
    if n == 0 then [] else [x % 0x100] + LowBytes(x / 0x100, n - 1)
  }

  lemma {:induction false} LowBytesRoundTrip(x: nat, n: nat, bound: nat)
    requires x < bound && bound == Pow256(n)
    ensures LittleEndian(LowBytes(x, n)) == x
  {
    if n > 0 {
      LowBytesRoundTrip(x / 0x100, n - 1, Pow256(n - 1));
      var b := LowBytes(x, n);
      assert b[1..] == LowBytes(x / 0x100, n - 1);
    }
  }
}
