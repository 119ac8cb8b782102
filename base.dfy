/** The byte type and the small wrapper types the other modules share. */
module Base {
  /** One octet of a PHP byte string, as `ord` reads it. */
  newtype byte = x: int | 0 <= x < 256

  datatype Option<+T> = None | Some(value: T)

  /** The value of an operation, or the error the PHP runtime raises instead. */
  datatype Result<+T, +E> = Ok(value: T) | Err(error: E)

  /** Slicing around the head: the first `n` entries are the head and then the first `n - 1` of the tail. */
  lemma SliceAfterHead<T>(s: seq<T>, n: nat)
    requires 1 <= n <= |s|
    ensures s[..n] == [s[0]] + s[1..][..n - 1]
    ensures s[n..] == s[1..][n - 1..]
  {
  }

  /** Concatenation regroups freely. */
  lemma ConcatAssociates<T>(a: seq<T>, b: seq<T>, c: seq<T>)
    ensures a + (b + c) == (a + b) + c
  {
  }
}
