/** Small definitions shared by every component model. */
module Common {
  /** An octet of a packet or of a stored frame. */
  type Byte = bv8

  lemma ByteOfIsExact(n: nat)
    requires n < 0x100
    ensures (n as Byte) as int == n
  {
  }

  datatype Option<+T> = None | Some(value: T)

  function Min(a: nat, b: nat): (m: nat)
    ensures m <= a && m <= b && (m == a || m == b)
  {
    if a < b then a else b
  }

  lemma Assoc<T>(a: seq<T>, b: seq<T>, c: seq<T>)
    ensures (a + b) + c == a + (b + c)
  {
  }
}
