/** Scalar types, status codes and result shapes shared by the console
    read/write client calls of kernel32 (dll/win32/kernel32/client/console/readwrite.c). */
module ConsoleTypes {

  /** SHORT, WORD and DWORD as the source declares its fields and parameters. */
  type Short = x: int | -0x8000 <= x < 0x8000
  type Word = x: int | 0 <= x < 0x1_0000
  type Dword = x: int | 0 <= x < 0x1_0000_0000

  const WORD_MODULUS: nat := 0x1_0000
  const DWORD_MODULUS: nat := 0x1_0000_0000

  /** DWORD addition: `a += b` wraps modulo 2^32, at most once, and a sum
      that wrapped is smaller than either addend. */
  function AddDword(a: Dword, b: Dword): (sum: Dword)
    ensures a + b < DWORD_MODULUS ==> sum == a + b
    ensures a + b >= DWORD_MODULUS ==> sum == a + b - DWORD_MODULUS && sum < a && sum < b
  {
    (a + b) % DWORD_MODULUS
  }

  /** A byte count computed in 32-bit unsigned arithmetic (`n * sizeof(T)`
      stored in a DWORD or ULONG): the product modulo 2^32, which is the
      product itself when it fits. */
  function DwordProduct(n: int, size: nat): (r: Dword)
    ensures 0 <= n * size < DWORD_MODULUS ==> r == n * size
  {
    (n * size) % DWORD_MODULUS
  }

  /** Accumulating a DWORD and then adding the rest is the DWORD sum of all. */
  lemma AddDwordThenSum(a: Dword, b: Dword, rest: nat)
    ensures (AddDword(a, b) + rest) % DWORD_MODULUS == (a + (b + rest)) % DWORD_MODULUS
  {
    ModAddLeft(a + b, rest);
  }

  lemma ModAddLeft(a: nat, b: nat)
    ensures (a % DWORD_MODULUS + b) % DWORD_MODULUS == (a + b) % DWORD_MODULUS
  {
    var m := DWORD_MODULUS;
    var q := a / m;
    assert a == q * m + a % m;
    assert a + b == (a % m + b) + q * m;
    ModMultiple(a % m + b, q);
  }

  lemma {:induction false} ModMultiple(x: nat, q: nat)
    ensures (x + q * DWORD_MODULUS) % DWORD_MODULUS == x % DWORD_MODULUS
    decreases q
  {
    if q > 0 {
      ModMultiple(x, q - 1);
      assert x + q * DWORD_MODULUS == (x + (q - 1) * DWORD_MODULUS) + DWORD_MODULUS;
    }
  }

  /** NTSTATUS is a signed 32-bit value. */
  type NtStatus = s: int | -0x8000_0000 <= s < 0x8000_0000

  /** NT_SUCCESS: every non-negative status (informational codes included) is a success. */
  predicate NtSuccess(s: NtStatus) { s >= 0 }

  const STATUS_SUCCESS: NtStatus := 0
  const STATUS_PENDING: NtStatus := 0x103

  /** Win32 error codes the client sets with SetLastError. */
  const ERROR_NOT_ENOUGH_MEMORY: Dword := 8
  const ERROR_INVALID_PARAMETER: Dword := 87

  /** Sizes in bytes of the elements the client marshals. */
  const SIZEOF_CHAR: nat := 1
  const SIZEOF_WCHAR: nat := 2
  const SIZEOF_WORD: nat := 2
  const SIZEOF_CHAR_INFO: nat := 4
  const SIZEOF_READCONSOLE_CONTROL: nat := 16
  const SIZEOF_INPUT_RECORD: nat := 20

  datatype Coord = Coord(x: Short, y: Short)

  datatype SmallRect = SmallRect(left: Short, top: Short, right: Short, bottom: Short)

  datatype Option<+T> = None | Some(value: T)

  function Min(a: nat, b: nat): nat { if a <= b then a else b }

  function Max(a: nat, b: nat): nat { if a <= b then b else a }

  /** The error recorded for the calling thread: a Win32 code set by
      SetLastError, or an NT status handed to BaseSetLastNTError. */
  datatype LastError = Win32Error(code: Dword) | NtError(status: NtStatus)

  /** What a client call hands back: its BOOL result, the value it stores
      through the caller's count pointer (None when it stores nothing), and
      the last error it sets (None when it sets none). */
  datatype Outcome = Outcome(ok: bool, count: Option<Dword>, lastError: Option<LastError>)

  const NoMemory: Outcome := Outcome(false, None, Some(Win32Error(ERROR_NOT_ENOUGH_MEMORY)))
  const InvalidParameter: Outcome := Outcome(false, None, Some(Win32Error(ERROR_INVALID_PARAMETER)))

  /** Element size picked from the bUnicode flag: sizeof(WCHAR) or sizeof(CHAR). */
  function CharSize(unicode: bool): (size: nat)
    ensures size == 1 || size == 2
    ensures size == 2 <==> unicode
  {
    if unicode then SIZEOF_WCHAR else SIZEOF_CHAR
  }

  /** Ghost ledger of one call's heap request or capture buffer: how many
      times it was acquired and how many times released. */
  datatype Ownership = Ownership(acquired: nat, released: nat) {

    /** Every allocation released, none released twice. */
    predicate Balanced() { acquired == released }

    function Acquire(): (o: Ownership)
      ensures o.acquired == acquired + 1 && o.released == released
    {
      Ownership(acquired + 1, released)
    }

    /** Freeing is only possible while something is still held. */
    function Release(): (o: Ownership)
      requires released < acquired
      ensures o.acquired == acquired && o.released == released + 1
    {
      Ownership(acquired, released + 1)
    }
  }
}
