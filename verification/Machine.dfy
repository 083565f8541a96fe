/** Machine-level vocabulary shared by the models: bytes, word sizes and kernel status codes. */
module Machine {

  type byte = b: int | 0 <= b < 256

  const TWO32: int := 0x1_0000_0000
  const TWO64: int := 0x1_0000_0000_0000_0000

  datatype Status = Ok | ErrInvalid | ErrNoMemory | ErrNotFound | ErrIo | ErrBusy

  /** 64-bit unsigned addition. */
  function Add64(a: nat, b: nat): (r: nat)
    ensures r < TWO64 && (a + b < TWO64 ==> r == a + b)
  {
    (a + b) % TWO64
  }

  datatype Option<T> = None | Some(value: T)

  function Min(a: nat, b: nat): (m: nat)
    ensures m <= a && m <= b && (m == a || m == b)
  {
    if a < b then a else b
  }

  function Max(a: nat, b: nat): (m: nat)
    ensures m >= a && m >= b && (m == a || m == b)
  {
    if a < b then b else a
  }
}
