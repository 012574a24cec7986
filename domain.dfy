/** Value types shared by the staff repository: Go's uint64 and the employee record. */
module Domain {

  /** Largest value of Go's uint64. */
  const MAX_UINT64: int := 0xFFFF_FFFF_FFFF_FFFF

  /** Go's uint64: the type of employee ids and of the repository's sequence counter. */
  type uint64 = x: int | 0 <= x <= MAX_UINT64

  /** The domain attributes of an employee (name, position, ...), which the repository
      stores and returns but never inspects. */
  type Attributes = string

  /** domain.Employee: an identifier field the repository assigns on creation,
      plus attributes it does not interpret. */
  datatype Employee = Employee(ID: uint64, Attributes: Attributes)

  /** The value of Go's `x += 1` on a uint64: addition modulo 2^64. */
  function Next(x: uint64): (r: uint64)
    ensures x < MAX_UINT64 ==> r == x + 1
    ensures x == MAX_UINT64 ==> r == 0
  {
    (x + 1) % (MAX_UINT64 + 1)
  }
}
