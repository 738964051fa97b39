/** The C integer types of a 64-bit build and the PHP values the extension exchanges. */
module MachineTypes {

  const INT16_MAX := 0x7FFF
  const INT32_MAX := 0x7FFF_FFFF
  const INT64_MAX := 0x7FFF_FFFF_FFFF_FFFF
  const INT64_MIN := -0x8000_0000_0000_0000
  const TWO_32 := 0x1_0000_0000
  const TWO_64 := 0x1_0000_0000_0000_0000

  type byte = b: int | 0 <= b < 256

  /** One byte of a PHP string. */
  type Octet = c: char | c as int < 256

  type PhpString = seq<Octet>

  type Int32 = n: int | -INT32_MAX - 1 <= n <= INT32_MAX

  type Int64 = n: int | INT64_MIN <= n <= INT64_MAX

  /** Conversion of any integer to `uint64_t`. */
  function ToUint64(n: int): (r: int)
    ensures 0 <= r < TWO_64
  {
    n % 0x1_0000_0000_0000_0000
  }

  /** `static_cast<int64_t>` of a `uint64_t`. */
  function ToInt64(n: int): (r: Int64)
    requires 0 <= n < TWO_64
  {
    if n <= 0x7FFF_FFFF_FFFF_FFFF then n else n - 0x1_0000_0000_0000_0000
  }

  /** Conversion of any integer to `int32_t`. */
  function ToInt32(n: int): (r: Int32)
  {
    var u := n % 0x1_0000_0000;
    if u <= 0x7FFF_FFFF then u else u - 0x1_0000_0000
  }

  /** C integer division, which truncates toward zero. */
  function CDiv(a: int, b: int): int
    requires b > 0
  {
    if a >= 0 then a / b else -((-a) / b)
  }

  /** C remainder, which takes the sign of the dividend. */
  function CRem(a: int, b: int): (r: int)
    requires b > 0
    ensures a >= 0 ==> 0 <= r < b
    ensures a <= 0 ==> -b < r <= 0
  {
    if a >= 0 then a % b else -((-a) % b)
  }

  datatype Option<+T> = None | Some(value: T)

  datatype Result<+T, +E> = Ok(value: T) | Err(error: E)
}
