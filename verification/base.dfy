/** Shared vocabulary of the simulator model: optional values, the outcome of an
    operation that may be refused, the `unsigned int` arithmetic of the counters,
    and linear search as done by `std::find`. */
module Base {

  /** A value that may be absent (a null pointer, an unset location). */
  datatype Option<+T> = None | Some(value: T)

  /** The result of an operation that reports success as a `bool` and, on
      success, leaves the state changed. */
  datatype Attempt<+S> = Attempt(ok: bool, state: S)

  const U32_MODULUS: int := 0x1_0000_0000

  /** The values of a C++ `unsigned int`. */
  type u32 = x: int | 0 <= x < U32_MODULUS

  /** The value an `unsigned int` holds after being assigned `x`: reduction modulo 2^32. */
  function Wrap32(x: int): (r: u32)
    ensures 0 <= x < U32_MODULUS ==> r == x
    ensures -U32_MODULUS <= x < 0 ==> r == x + U32_MODULUS
  {
    x % U32_MODULUS
  }

  /** Position of the first occurrence of `x` in `s`, or `|s|` when there is
      none: the iterator `std::find` returns, as an index. */
  function IndexOf<T(==)>(s: seq<T>, x: T): (k: nat)
    ensures k <= |s|
    ensures k < |s| ==> s[k] == x
    ensures forall j :: 0 <= j < k ==> s[j] != x
    ensures k == |s| <==> x !in s
  {
    if s == [] then 0
    else if s[0] == x then 0
    else 1 + IndexOf(s[1..], x)
  }

  /** A sequence that is a head followed by a rest made of a front and a back
      is the head and the front followed by the back. */
  lemma Regroup<T>(whole: seq<T>, head: seq<T>, front: seq<T>, rest: seq<T>, back: seq<T>)
    requires whole == head + rest && rest == front + back
    ensures whole == (head + front) + back
  {
  }
}
