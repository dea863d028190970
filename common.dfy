/** Shared vocabulary of the capture builder: bytes, the errors the builders
    raise, a failure-compatible Result, and the fixed-width integer layouts
    (big-endian for the wire formats, little-endian for the capture file). */
module Common {

  type Byte = b: int | 0 <= b < 0x100
  type Bytes = seq<Byte>

  /** The exceptions the core can raise, one constructor per distinct cause. */
  datatype Error =
    | MacGroupCount    // the link address does not split into exactly 6 groups
    | MacInvalidHex    // a group is not a hexadecimal literal
    | MacByteRange     // a group's value does not fit in one byte
    | FieldOverflow    // a fixed-width field cannot hold the value given to it
    | LengthMismatch   // a byte array field disagrees with its declared length
    | MtuExceeded      // the IPv4 packet is longer than the typical MTU
    | UnknownEntity    // a conversation names an entity it does not know

  datatype Result<+T> = Ok(value: T) | Err(error: Error) {
    predicate IsFailure() { Err? }
    function PropagateFailure<U>(): Result<U>
      requires Err?
    {
      Err(error)
    }
    function Extract(): T
      requires Ok?
    {
      value
    }
  }

  datatype Option<+T> = None | Some(value: T) {
    function GetOr(default: T): T {
      match this
      case Some(v) => v
      case None => default
    }
  }

  predicate IsU8(x: int) { 0 <= x < 0x100 }
  predicate IsU16(x: int) { 0 <= x < 0x1_0000 }
  predicate IsU32(x: int) { 0 <= x < 0x1_0000_0000 }

  /** The big-endian 16-bit value stored at offset i. */
  function BE16At(s: Bytes, i: nat): int
    requires i + 2 <= |s|
  {
    s[i] as int * 0x100 + s[i + 1]
  }

  /** The big-endian 32-bit value stored at offset i. */
  function BE32At(s: Bytes, i: nat): int
    requires i + 4 <= |s|
  {
    BE16At(s, i) * 0x1_0000 + BE16At(s, i + 2)
  }

  /** The little-endian 16-bit value stored at offset i. */
  function LE16At(s: Bytes, i: nat): int
    requires i + 2 <= |s|
  {
    s[i] as int + s[i + 1] as int * 0x100
  }

  /** The little-endian 32-bit value stored at offset i. */
  function LE32At(s: Bytes, i: nat): int
    requires i + 4 <= |s|
  {
    LE16At(s, i) + LE16At(s, i + 2) * 0x1_0000
  }

  /** Encodes x as an unsigned 16-bit big-endian field (construct's Int16ub). */
  function BE16(x: int): (r: Bytes)
    requires IsU16(x)
    ensures |r| == 2 && BE16At(r, 0) == x
  {
    [x / 0x100, x % 0x100]
  }

  /** Encodes x as an unsigned 32-bit big-endian field (construct's Int32ub). */
  function BE32(x: int): (r: Bytes)
    requires IsU32(x)
    ensures |r| == 4 && BE32At(r, 0) == x
  {
    BE16(x / 0x1_0000) + BE16(x % 0x1_0000)
  }

  /** Encodes x as an unsigned 16-bit little-endian field (construct's Int16ul). */
  function LE16(x: int): (r: Bytes)
    requires IsU16(x)
    ensures |r| == 2 && LE16At(r, 0) == x
  {
    [x % 0x100, x / 0x100]
  }

  /** Encodes x as an unsigned 32-bit little-endian field (construct's Int32ul). */
  function LE32(x: int): (r: Bytes)
    requires IsU32(x)
    ensures |r| == 4 && LE32At(r, 0) == x
  {
    LE16(x % 0x1_0000) + LE16(x / 0x1_0000)
  }

  /** n zero bytes, the filler of alignment padding. */
  function Zeros(n: nat): (r: Bytes)
    ensures |r| == n && forall i | 0 <= i < n :: r[i] == 0
  {
    if n == 0 then [] else [0] + Zeros(n - 1)
  }

  /** Regrouping a concatenation of a prefix and four parts. */
  lemma Regroup(p: Bytes, x: Bytes, y: Bytes, z: Bytes, d: Bytes)
    ensures p + (x + y + z + d) == (p + x) + y + (z + d)
    ensures p + (x + y + z) + d == (p + x) + y + (z + d)
  {
  }

  /** Two concatenations of three that differ only in a middle part of the
      same length agree before and after it. */
  lemma SameOutside(x: Bytes, y: Bytes, y': Bytes, t: Bytes)
    requires |y| == |y'|
    ensures |x + y + t| == |x + y' + t|
    ensures (x + y + t)[..|x|] == (x + y' + t)[..|x|] == x
    ensures (x + y + t)[|x| + |y|..] == (x + y' + t)[|x| + |y|..] == t
  {
  }
}
