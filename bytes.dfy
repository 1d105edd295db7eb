/** Bytes, optional values, the errors that end processing of a file, and the
    file cursor: the JPEG file is an in-memory byte sequence and every read
    starts at an explicit position, as `read(n)` on a binary file does. */
module Bytes {

  /** One item of a Python `bytes` value: an int in 0..255 */
  type Byte = b: int | 0 <= b < 256

  datatype Option<+T> = None | Some(value: T)

  /** The ways processing of a file ends early. Python exceptions keep their
      class name; `sys.exit()` after a diagnostic becomes `Exit`. */
  datatype Error =
    | StructError          // struct.unpack given the wrong number of bytes
    | TypeError            // None used as a number, or an int where bytes are needed
    | IndexError           // indexing an empty bytes value
    | ValueError           // read() given a negative length other than -1
    | Exit(message: string)
    | OutOfFuel            // the step bound of the model ran out; the source would go on

  datatype Result<+T> = Ok(value: T) | Err(error: Error)

  function Min(a: int, b: int): int { if a <= b then a else b }

  /** The cursor after `read(n)` from `pos`: it stops at the end of the file,
      and a cursor already at or past the end does not move. */
  function Advance(data: seq<Byte>, pos: nat, n: nat): (p: nat)
    ensures pos <= p <= pos + n
    ensures p == pos + n || p >= |data|
    ensures pos < |data| ==> p <= |data|
  {
    if pos >= |data| then pos else Min(pos + n, |data|)
  }

  /** The bytes `read(n)` returns from `pos`: fewer than n at the end of the file. */
  function Read(data: seq<Byte>, pos: nat, n: nat): (r: seq<Byte>)
    ensures |r| == Advance(data, pos, n) - pos
    ensures |r| == n <==> n == 0 || pos + n <= |data|
    ensures pos + n <= |data| ==> r == data[pos..pos + n]
    ensures forall i :: 0 <= i < |r| ==> r[i] == data[pos + i]
  {
    if pos >= |data| then [] else data[pos..Min(pos + n, |data|)]
  }

  /** Two reads in a row leave the cursor where one read of the combined
      length leaves it. */
  lemma AdvanceTwice(data: seq<Byte>, pos: nat, a: nat, b: nat)
    ensures Advance(data, Advance(data, pos, a), b) == Advance(data, pos, a + b)
  {
  }

  /** Two reads in a row return what one read of the combined length returns,
      and leave the cursor in the same place. */
  lemma ReadTwice(data: seq<Byte>, pos: nat, a: nat, b: nat)
    ensures Advance(data, Advance(data, pos, a), b) == Advance(data, pos, a + b)
    ensures Read(data, pos, a) + Read(data, Advance(data, pos, a), b) == Read(data, pos, a + b)
  {
    var mid := Advance(data, pos, a);
    if pos < |data| && mid < |data| {
      assert mid == pos + a;
      assert data[pos..mid] + data[mid..Min(mid + b, |data|)] == data[pos..Min(pos + a + b, |data|)];
    }
  }

  /** Python's slice `b[i:j]`, which clips both bounds to the length of b */
  function Slice(b: seq<Byte>, i: nat, j: nat): (r: seq<Byte>)
    requires i <= j
    ensures |r| == Min(j, |b|) - Min(i, |b|)
    ensures j <= |b| ==> r == b[i..j]
  {
    b[Min(i, |b|)..Min(j, |b|)]
  }

  /** The bytes of a Python bytes literal written with ASCII characters only */
  function Latin1(s: string): (b: seq<Byte>)
    ensures |b| == |s|
    ensures forall i :: 0 <= i < |s| && (s[i] as int) < 256 ==> b[i] == s[i] as int
  {
    seq(|s|, i requires 0 <= i < |s| => (s[i] as int) % 256)
  }
}
