/** Octets and the C strings made of them. */
module Bytes {

  type Byte = x: int | 0 <= x < 256

  /** A C string without its terminator: the octets before the first NUL. */
  type CStr = s: seq<Byte> | 0 !in s

  /** The octet a pointer `p` into `s` reads; index `|s|` is the terminator and nothing beyond it may be read. */
  function At(s: CStr, p: nat): Byte
    requires p <= |s|
  {
    if p < |s| then s[p] else 0
  }

  function Flatten<T>(parts: seq<seq<T>>): seq<T> {
    if parts == [] then [] else parts[0] + Flatten(parts[1..])
  }

  lemma FlattenAppend<T>(parts: seq<seq<T>>, last: seq<T>)
    ensures Flatten(parts + [last]) == Flatten(parts) + last
  {
    if parts == [] {
      assert [last][1..] == [];
      assert Flatten([last]) == last + Flatten([last][1..]);
    } else {
      assert (parts + [last])[1..] == parts[1..] + [last];
      FlattenAppend(parts[1..], last);
    }
  }
}
