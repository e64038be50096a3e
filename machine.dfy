/**
 * Machine-level vocabulary shared by the other modules: fixed-width
 * unsigned integers, the C conversions between them, an Option type for
 * NULL-able results, and the one sequence operation every buffer writer
 * here is specified with (overwriting a run of elements in place).
 */
module Machine {

  const TWO_31: int := 0x8000_0000
  const TWO_32: int := 0x1_0000_0000
  const TWO_64: int := 0x1_0000_0000_0000_0000

  /** A `char` byte as stored in a buffer, read as unsigned. */
  newtype uint8 = x: int | 0 <= x < 0x100

  /** A `jschar` (UTF-16 code unit). */
  newtype uint16 = x: int | 0 <= x < 0x1_0000

  datatype Option<T> = None | Some(value: T)

  /** Width of `size_t` on the platform being modelled. */
  datatype WordSize = W32 | W64

  function SizeModulus(ws: WordSize): (m: nat)
    ensures m == TWO_32 || m == TWO_64
  {
    if ws == W32 then TWO_32 else TWO_64
  }

  /** `static_cast<int>` of an unsigned value: its low 32 bits read as two's complement. */
  function Int32Of(x: nat): (r: int)
    ensures -TWO_31 <= r < TWO_31
    ensures (x - r) % TWO_32 == 0
    ensures x < TWO_31 ==> r == x
  {
    var low := x % TWO_32;
    if low < TWO_31 then low else low - TWO_32
  }

  /** `static_cast<size_t>` of an `int`: reduction modulo 2^width. */
  function ToSize(x: int, ws: WordSize): (r: nat)
    ensures r < SizeModulus(ws)
    ensures (x - r) % SizeModulus(ws) == 0
    ensures 0 <= x < SizeModulus(ws) ==> r == x
  {
    x % SizeModulus(ws)
  }

  /**
   * `s` with the elements at positions `at .. at + |w|` replaced by `w`:
   * the effect of storing `w` into a buffer holding `s`.
   */
  function Overwrite<T>(s: seq<T>, at: nat, w: seq<T>): (r: seq<T>)
    requires at + |w| <= |s|
    ensures |r| == |s|
    ensures forall k :: 0 <= k < |s| ==> r[k] == if at <= k < at + |w| then w[k - at] else s[k]
  {
    s[..at] + w + s[at + |w|..]
  }

  /** Storing one more element right after a stored prefix extends that prefix. */
  lemma OverwriteSnoc<T>(s: seq<T>, w: seq<T>, x: T)
    requires |w| < |s|
    ensures Overwrite(s, 0, w + [x]) == Overwrite(s, 0, w)[|w| := x]
  {
    var a, b := Overwrite(s, 0, w + [x]), Overwrite(s, 0, w)[|w| := x];
    assert forall k :: 0 <= k < |s| ==> a[k] == b[k];
  }

  /** `n` copies of `x`. */
  function Repeat<T>(x: T, n: nat): (r: seq<T>)
    ensures |r| == n
    ensures forall k :: 0 <= k < n ==> r[k] == x
  {
    seq(n, _ => x)
  }
}
